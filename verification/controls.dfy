/** The two checks of the manager that act on what the driver returns: the
    uniqueness of a located control (`get_flutter_control`) and the detection
    of an engine view among control types (`find_flutter_view`). */
module FlutterControls {
  import opened Outcomes
  import opened Strings

  datatype ControlError =
      /** No control matched: `RuntimeError("Get control failed.")`. */
    | ControlNotFound
      /** Several controls matched: `RuntimeError("Control is not unique.")`. */
    | ControlNotUnique

  /** The located control, provided exactly one was found. */
  function UniqueControl<T>(controls: seq<T>): (r: Result<T, ControlError>)
    ensures r.Success? ==> controls == [r.value]
    ensures |controls| == 0 <==> r == Failure(ControlNotFound)
    ensures |controls| > 1 <==> r == Failure(ControlNotUnique)
  {
    if |controls| == 0 then Failure(ControlNotFound)
    else if |controls| > 1 then Failure(ControlNotUnique)
    else Success(controls[0])
  }

  /** A single control is exactly the case that succeeds, and it yields that control. */
  lemma UniqueControlSingleton<T>(controls: seq<T>, c: T)
    ensures UniqueControl(controls) == Success(c) <==> controls == [c]
  {
  }

  /** Substring that marks the engine's root view type. */
  const FlutterViewType: string := "FlutterView"

  /** `find_flutter_view` over the collected control types: `Some(true)` (its
      `return True`) when some type contains `FlutterView`, and `None` (it
      falls off the end and returns `None` implicitly) otherwise; never `False`. */
  method FindFlutterView(types: seq<string>) returns (r: Option<bool>)
    ensures r == Some(true) <==> exists k :: 0 <= k < |types| && Occurs(FlutterViewType, types[k])
    ensures r == None <==> forall k :: 0 <= k < |types| ==> !Occurs(FlutterViewType, types[k])
  {
    var i := 0;
    while i < |types|
      invariant 0 <= i <= |types|
      invariant forall k :: 0 <= k < i ==> !Occurs(FlutterViewType, types[k])
    {
      if Contains(types[i], FlutterViewType) {
        return Some(true);
      }
      i := i + 1;
    }
    return None;
  }
}

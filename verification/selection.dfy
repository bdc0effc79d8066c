/** The selection rule `addMessage` applies to forums and to topics: walk the
    list in iteration order, remember every element seen and every element
    whose title equals the requested one; afterwards take the remembered
    match, or failing that the last element seen, or nothing for an empty
    list. Elements are identified by their index; the rule only looks at
    their titles. */
module Selection {
  import opened Wrappers

  /** Index of the last title equal to `want`, if there is one. */
  function LastMatch(titles: seq<string>, want: string): (r: Option<nat>)
    ensures r.Some? ==> r.value < |titles| && titles[r.value] == want
    ensures r.Some? ==> forall j :: r.value < j < |titles| ==> titles[j] != want
    ensures r.None? <==> forall j :: 0 <= j < |titles| ==> titles[j] != want
  {
    if |titles| == 0 then None
    else if titles[|titles| - 1] == want then Some(|titles| - 1)
    else LastMatch(titles[..|titles| - 1], want)
  }

  /** The selection rule: the last exact match, otherwise the last element,
      otherwise nothing. */
  function Select(titles: seq<string>, want: string): (r: Option<nat>)
    ensures r.None? <==> |titles| == 0
    ensures r.Some? ==> r.value < |titles|
    ensures (exists j :: 0 <= j < |titles| && titles[j] == want) ==>
              r.Some? && titles[r.value] == want &&
              forall j :: r.value < j < |titles| ==> titles[j] != want
    ensures (forall j :: 0 <= j < |titles| ==> titles[j] != want) && |titles| > 0 ==>
              r == Some(|titles| - 1)
  {
    match LastMatch(titles, want)
    case Some(i) => Some(i)
    case None => if |titles| == 0 then None else Some(|titles| - 1)
  }

  /** The selection loop as the Java code writes it: `any` is overwritten by
      every element, `selected` by every matching one. */
  method ScanSelect(titles: seq<string>, want: string) returns (r: Option<nat>)
    ensures r == Select(titles, want)
  {
    var selected: Option<nat> := None;
    var any: Option<nat> := None;
    var i := 0;
    while i < |titles|
      invariant 0 <= i <= |titles|
      invariant selected == LastMatch(titles[..i], want)
      invariant any == if i == 0 then None else Some(i - 1)
    {
      assert titles[..i + 1][..i] == titles[..i];
      any := Some(i);
      if titles[i] == want {
        selected := Some(i);
      }
      i := i + 1;
    }
    assert titles[..i] == titles;
    r := if selected.Some? then selected else any;
  }
}

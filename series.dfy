/** Sparse time-indexed series (ttbin/ttbin.c:196-202, 227-233, 240-247,
    270-277, 292-299): a sample lands at slot `index`; when the series is too
    short it is first extended to `index + 1` slots, the new ones all zero. */
module Series {

  /** The series after "expand the array if necessary": `realloc` to
      `index + 1` slots and `memset` the new ones to zero. */
  function GrowTo<T>(s: seq<T>, index: nat, zero: T): (r: seq<T>)
    ensures |r| == if index < |s| then |s| else index + 1
    ensures index < |r|
    ensures r[..|s|] == s
    ensures forall j :: |s| <= j < |r| ==> r[j] == zero
  {
    if index < |s| then s else s + seq(index + 1 - |s|, _ => zero)
  }

  /** What slot `index` holds once the series has been grown to cover it. */
  function Slot<T>(s: seq<T>, index: nat, zero: T): T
  {
    if index < |s| then s[index] else zero
  }

  /** Grow the series to cover `index`, then store `v` there. */
  function Place<T>(s: seq<T>, index: nat, zero: T, v: T): (r: seq<T>)
    ensures |r| == if index < |s| then |s| else index + 1
  {
    GrowTo(s, index, zero)[index := v]
  }

  /** Writing at `index`: the length becomes `index + 1` if it was shorter
      and is unchanged otherwise; slot `index` holds `v`; every earlier slot
      keeps its value and every slot created by the growth is zero. */
  lemma PlaceShape<T>(s: seq<T>, index: nat, zero: T, v: T)
    ensures |Place(s, index, zero, v)| == if index < |s| then |s| else index + 1
    ensures Place(s, index, zero, v)[index] == v
    ensures forall j :: 0 <= j < |s| && j != index ==> Place(s, index, zero, v)[j] == s[j]
    ensures forall j :: |s| <= j < |Place(s, index, zero, v)| && j != index ==>
      Place(s, index, zero, v)[j] == zero
  {
    var g := GrowTo(s, index, zero);
    forall j | 0 <= j < |s|
      ensures g[j] == s[j]
    {
      assert g[..|s|][j] == g[j];
    }
  }
}

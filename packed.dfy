/** Packed structures: a record's on-disk layout is the list of its field
    widths in bytes, laid end to end with no padding (the C structs are all
    declared `__attribute__((packed))`). */
module Packed {
  import opened Bytes

  /** Total width of the first `n` fields of a layout. */
  function Total(widths: seq<nat>, n: nat): nat
    requires n <= |widths|
  {
    if n == 0 then 0 else Total(widths, n - 1) + widths[n - 1]
  }

  /** Size of a record with this layout. */
  function Sum(widths: seq<nat>): nat
  {
    Total(widths, |widths|)
  }

  /** Byte offset of field `k` from the start of the record. */
  function Offset(widths: seq<nat>, k: nat): nat
    requires k <= |widths|
  {
    Total(widths, k)
  }

  /** Dropping the first field shifts every offset down by its width. */
  lemma {:induction false} TotalTail(widths: seq<nat>, n: nat)
    requires 1 <= n <= |widths|
    ensures Total(widths, n) == widths[0] + Total(widths[1..], n - 1)
  {
    if n > 1 {
      TotalTail(widths, n - 1);
    }
  }

  /** The unsigned field values of the record `s`. */
  function Unpack(s: seq<uint8>, widths: seq<nat>): (fields: seq<nat>)
    requires |s| == Sum(widths)
    ensures |fields| == |widths|
    decreases |widths|
  {
    if widths == [] then []
    else
      TotalTail(widths, |widths|);
      [LittleEndian(s[..widths[0]])] + Unpack(s[widths[0]..], widths[1..])
  }

  /** The bytes of a record whose fields hold `values`. */
  function Pack(values: seq<nat>, widths: seq<nat>): (s: seq<uint8>)
    requires |values| == |widths|
    ensures |s| == Sum(widths)
    decreases |widths|
  {
    if widths == [] then []
    else
      TotalTail(widths, |widths|);
      ToLittleEndian(values[0], widths[0]) + Pack(values[1..], widths[1..])
  }

  /** Every value fits in its field. */
  ghost predicate Fits(values: seq<nat>, widths: seq<nat>)
  {
    |values| == |widths| && forall k :: 0 <= k < |widths| ==> values[k] < Pow256(widths[k])
  }

  /** Unpacking a packed record gives back its fields. */
  lemma {:induction false} UnpackPack(values: seq<nat>, widths: seq<nat>)
    requires Fits(values, widths)
    ensures Unpack(Pack(values, widths), widths) == values
    decreases |widths|
  {
    if widths != [] {
      TotalTail(widths, |widths|);
      var head := ToLittleEndian(values[0], widths[0]);
      var rest := Pack(values[1..], widths[1..]);
      var s := head + rest;
      assert s[..widths[0]] == head;
      assert s[widths[0]..] == rest;
      LittleEndianRoundTrip(values[0], widths[0]);
      assert Fits(values[1..], widths[1..]) by {
        forall k | 0 <= k < |widths| - 1
          ensures values[1..][k] < Pow256(widths[1..][k])
        {
          assert values[k + 1] < Pow256(widths[k + 1]);
        }
      }
      UnpackPack(values[1..], widths[1..]);
    }
  }

  /** Field `k` of a record is the little-endian value of the bytes at its offset. */
  lemma {:induction false} UnpackAt(s: seq<uint8>, widths: seq<nat>, k: nat)
    requires |s| == Sum(widths) && k < |widths|
    ensures Offset(widths, k) + widths[k] <= |s|
    ensures Unpack(s, widths)[k] == LittleEndian(s[Offset(widths, k)..Offset(widths, k) + widths[k]])
    decreases k
  {
    var w := widths[0];
    TotalTail(widths, |widths|);
    if k == 0 {
      assert Unpack(s, widths)[0] == LittleEndian(s[..w]);
      assert s[0..w] == s[..w];
    } else {
      var tail := s[w..];
      var o := Offset(widths[1..], k - 1);
      UnpackAt(tail, widths[1..], k - 1);
      assert Unpack(s, widths)[k] == Unpack(tail, widths[1..])[k - 1] by {
        assert Unpack(s, widths) == [LittleEndian(s[..w])] + Unpack(tail, widths[1..]);
      }
      assert widths[1..][k - 1] == widths[k];
      assert Offset(widths, k) == w + o by { TotalTail(widths, k); }
      assert tail[o..o + widths[k]] == s[w + o..w + o + widths[k]];
    }
  }

  /** In a packed record, field `k` reads back as the value written there. */
  lemma FieldOfPack(values: seq<nat>, widths: seq<nat>, k: nat)
    requires Fits(values, widths) && k < |widths|
    ensures Offset(widths, k) + widths[k] <= Sum(widths)
    ensures LittleEndian(Pack(values, widths)[Offset(widths, k)..Offset(widths, k) + widths[k]]) == values[k]
  {
    UnpackPack(values, widths);
    UnpackAt(Pack(values, widths), widths, k);
  }
}

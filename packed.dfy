/**
 * Byte layout of a C struct declared `__attribute__((packed))` on a
 * little-endian i386 target: members follow each other in declaration order,
 * with no padding, each stored least significant byte first.
 *
 * A struct type is described by its layout (the kinds of its members, in
 * order) and a value by its list of fields. `Flatten` gives the bytes in
 * memory, `Unflatten` reads them back, and `Offset` is C's `offsetof`.
 * The bookkeeping about where each member lands is done once, on lists of
 * byte chunks (`Concat`, `Split`), independently of what the bytes hold.
 */
module Packed {

  /** The width of one struct member. */
  datatype Kind = K8 | K16 | K32

  /** One struct member with its value. */
  datatype Field = U8(b: bv8) | U16(h: bv16) | U32(w: bv32)

  function Width(k: Kind): nat
  {
    match k
    case K8 => 1
    case K16 => 2
    case K32 => 4
  }

  function KindOf(f: Field): Kind
  {
    match f
    case U8(_) => K8
    case U16(_) => K16
    case U32(_) => K32
  }

  /** The layout of a list of fields. */
  function LayoutOf(fs: seq<Field>): (ks: seq<Kind>)
    ensures |ks| == |fs|
  {
    seq(|fs|, i requires 0 <= i < |fs| => KindOf(fs[i]))
  }

  lemma LayoutOfAppend(a: seq<Field>, b: seq<Field>)
    ensures LayoutOf(a + b) == LayoutOf(a) + LayoutOf(b)
  {
  }

  /** The widths of the members of a layout. */
  function Widths(ks: seq<Kind>): (ws: seq<nat>)
    ensures |ws| == |ks|
  {
    seq(|ks|, i requires 0 <= i < |ks| => Width(ks[i]))
  }

  lemma WidthsAppend(a: seq<Kind>, b: seq<Kind>)
    ensures Widths(a + b) == Widths(a) + Widths(b)
  {
  }

  /** Two concatenations with first parts of the same length agree part by part. */
  lemma AppendCancel<T>(x1: seq<T>, x2: seq<T>, y1: seq<T>, y2: seq<T>)
    requires x1 + x2 == y1 + y2 && |x1| == |y1|
    ensures x1 == y1 && x2 == y2
  {
    assert x1 == (x1 + x2)[..|x1|];
    assert x2 == (x1 + x2)[|x1|..];
    assert y1 == (y1 + y2)[..|y1|];
    assert y2 == (y1 + y2)[|y1|..];
  }

  // ---------------------------------------------------------------------
  // Chunk bookkeeping, independent of the bytes' values

  /** The sum of the first `i` sizes: where chunk `i` starts. */
  function Offset(ws: seq<nat>, i: nat): nat
    requires i <= |ws|
  {
    if i == 0 then 0 else Offset(ws, i - 1) + ws[i - 1]
  }

  function Sum(ws: seq<nat>): nat
  {
    Offset(ws, |ws|)
  }

  function Lengths<T>(chunks: seq<seq<T>>): (ws: seq<nat>)
    ensures |ws| == |chunks|
  {
    seq(|chunks|, i requires 0 <= i < |chunks| => |chunks[i]|)
  }

  /** Offsets depend only on the sizes before the one asked about. */
  lemma {:induction false} OffsetAgree(a: seq<nat>, b: seq<nat>, i: nat)
    requires i <= |a| && i <= |b|
    requires forall k :: 0 <= k < i ==> a[k] == b[k]
    ensures Offset(a, i) == Offset(b, i)
  {
    if i > 0 {
      OffsetAgree(a, b, i - 1);
    }
  }

  lemma {:induction false} OffsetMonotone(ws: seq<nat>, i: nat, j: nat)
    requires i <= j <= |ws|
    ensures Offset(ws, i) <= Offset(ws, j)
  {
    if i < j {
      OffsetMonotone(ws, i, j - 1);
    }
  }

  /** The chunks written one after the other. */
  function Concat<T>(chunks: seq<seq<T>>): seq<T>
  {
    if chunks == [] then [] else Concat(chunks[..|chunks| - 1]) + chunks[|chunks| - 1]
  }

  lemma {:induction false} ConcatLength<T>(chunks: seq<seq<T>>)
    ensures |Concat(chunks)| == Sum(Lengths(chunks))
  {
    if chunks != [] {
      var n := |chunks| - 1;
      ConcatLength(chunks[..n]);
      OffsetAgree(Lengths(chunks[..n]), Lengths(chunks), n);
    }
  }

  /** The first `i` chunks make up the first `Offset(i)` elements. */
  lemma {:induction false} ConcatPrefix<T>(chunks: seq<seq<T>>, i: nat)
    requires i <= |chunks|
    ensures Offset(Lengths(chunks), i) <= |Concat(chunks)|
    ensures Concat(chunks[..i]) == Concat(chunks)[..Offset(Lengths(chunks), i)]
  {
    var ws := Lengths(chunks);
    ConcatLength(chunks);
    if i == |chunks| {
      assert chunks[..i] == chunks;
    } else {
      var n := |chunks| - 1;
      var front := chunks[..n];
      var k := Offset(ws, i);
      ConcatPrefix(front, i);
      assert front[..i] == chunks[..i];
      OffsetAgree(Lengths(front), ws, i);
      assert k <= |Concat(front)|;
      assert Concat(chunks) == Concat(front) + chunks[n];
      assert Concat(chunks)[..k] == Concat(front)[..k];
    }
  }

  /** Chunk `i` occupies elements `Offset(i) .. Offset(i + 1)`. */
  lemma ConcatAt<T>(chunks: seq<seq<T>>, i: nat)
    requires i < |chunks|
    ensures Offset(Lengths(chunks), i + 1) <= |Concat(chunks)|
    ensures Concat(chunks)[Offset(Lengths(chunks), i)..Offset(Lengths(chunks), i + 1)] == chunks[i]
  {
    var ws := Lengths(chunks);
    var all := Concat(chunks);
    ConcatPrefix(chunks, i);
    ConcatPrefix(chunks, i + 1);
    assert chunks[..i + 1][..i] == chunks[..i];
    assert Concat(chunks[..i + 1]) == Concat(chunks[..i]) + chunks[i];
    assert all[..Offset(ws, i + 1)] == all[..Offset(ws, i)] + chunks[i];
    assert all[Offset(ws, i)..Offset(ws, i + 1)] == all[..Offset(ws, i + 1)][Offset(ws, i)..];
  }

  lemma {:induction false} OffsetAppend(a: seq<nat>, b: seq<nat>, i: nat)
    requires i <= |b|
    ensures Offset(a + b, |a| + i) == Sum(a) + Offset(b, i)
  {
    if i == 0 {
      OffsetAgree(a + b, a, |a|);
    } else {
      OffsetAppend(a, b, i - 1);
      assert (a + b)[|a| + i - 1] == b[i - 1];
    }
  }

  /** Offsets within a prefix do not see what follows it. */
  lemma OffsetPrefix(a: seq<nat>, b: seq<nat>)
    ensures forall i | 0 <= i <= |a| :: Offset(a + b, i) == Offset(a, i)
  {
    forall i | 0 <= i <= |a| {
      OffsetAgree(a + b, a, i);
    }
  }

  lemma SumAppend(a: seq<nat>, b: seq<nat>)
    ensures Sum(a + b) == Sum(a) + Sum(b)
  {
    OffsetAppend(a, b, |b|);
  }

  lemma ConcatSnoc<T>(chunks: seq<seq<T>>, c: seq<T>)
    ensures Concat(chunks + [c]) == Concat(chunks) + c
  {
    assert (chunks + [c])[..|chunks|] == chunks;
  }

  lemma {:induction false} ConcatAppend<T>(x: seq<seq<T>>, y: seq<seq<T>>)
    ensures Concat(x + y) == Concat(x) + Concat(y)
  {
    if y == [] {
      assert x + y == x;
    } else {
      var n := |y| - 1;
      var front := y[..n];
      assert Concat(x + y) == Concat(x + front) + y[n] by {
        assert x + y == (x + front) + [y[n]];
        ConcatSnoc(x + front, y[n]);
      }
      assert Concat(y) == Concat(front) + y[n] by {
        assert y == front + [y[n]];
        ConcatSnoc(front, y[n]);
      }
      ConcatAppend(x, front);
      assert (Concat(x) + Concat(front)) + y[n] == Concat(x) + (Concat(front) + y[n]);
    }
  }

  lemma SliceJoin<T>(s: seq<T>, j: nat, k: nat)
    requires j <= k <= |s|
    ensures s[..j] + s[j..k] == s[..k]
    ensures s[..j] + s[j..] == s
  {
  }

  /** Cuts `s` into chunks of the given sizes. */
  function Split<T>(ws: seq<nat>, s: seq<T>): (chunks: seq<seq<T>>)
    requires |s| == Sum(ws)
    ensures Lengths(chunks) == ws
    ensures Concat(chunks) == s
  {
    if ws == [] then []
    else
      var n := |ws| - 1;
      var cut := Offset(ws, n);
      OffsetAgree(ws[..n], ws, n);
      var front := Split(ws[..n], s[..cut]);
      var chunks := front + [s[cut..]];
      assert chunks[..n] == front;
      assert s == s[..cut] + s[cut..];
      chunks
  }

  /** Cutting a concatenation at the chunks' own sizes gives the chunks. */
  lemma {:induction false} SplitConcat<T>(chunks: seq<seq<T>>)
    ensures |Concat(chunks)| == Sum(Lengths(chunks))
    ensures Split(Lengths(chunks), Concat(chunks)) == chunks
  {
    ConcatLength(chunks);
    if chunks != [] {
      var n := |chunks| - 1;
      var ws := Lengths(chunks);
      var s := Concat(chunks);
      var front := chunks[..n];
      var cut := Offset(ws, n);
      assert ws[..n] == Lengths(front);
      ConcatPrefix(chunks, n);
      assert s[..cut] == Concat(front);
      assert s[cut..] == chunks[n] by {
        assert s == Concat(front) + chunks[n];
      }
      ConcatLength(front);
      assert Split(ws, s) == Split(Lengths(front), Concat(front)) + [chunks[n]];
      SplitConcat(front);
      assert chunks == front + [chunks[n]];
    }
  }

  // ---------------------------------------------------------------------
  // Members and their little-endian bytes

  /** The little-endian bytes of one member. */
  function Bytes(f: Field): (r: seq<bv8>)
    ensures |r| == Width(KindOf(f))
  {
    match f
    case U8(b) => [b]
    case U16(h) => [(h & 0xFF) as bv8, (h >> 8) as bv8]
    case U32(w) =>
      [(w & 0xFF) as bv8, ((w >> 8) & 0xFF) as bv8, ((w >> 16) & 0xFF) as bv8, (w >> 24) as bv8]
  }

  /** Reads one member of kind `k` back from its little-endian bytes. */
  function Read(k: Kind, b: seq<bv8>): (f: Field)
    requires |b| == Width(k)
    ensures KindOf(f) == k && Bytes(f) == b
  {
    match k
    case K8 => U8(b[0])
    case K16 => U16((b[0] as bv16) | ((b[1] as bv16) << 8))
    case K32 =>
      U32((b[0] as bv32) | ((b[1] as bv32) << 8) | ((b[2] as bv32) << 16) | ((b[3] as bv32) << 24))
  }

  /** Reading a member's bytes back gives the member. */
  lemma ReadBytes(f: Field)
    ensures Read(KindOf(f), Bytes(f)) == f
  {
  }

  function FieldChunks(fs: seq<Field>): (chunks: seq<seq<bv8>>)
    ensures |chunks| == |fs|
    ensures Lengths(chunks) == Widths(LayoutOf(fs))
  {
    seq(|fs|, i requires 0 <= i < |fs| => Bytes(fs[i]))
  }

  /** The bytes of a packed struct value, as laid out in memory. */
  function Flatten(fs: seq<Field>): (r: seq<bv8>)
    ensures |r| == Sum(Widths(LayoutOf(fs)))
  {
    ConcatLength(FieldChunks(fs));
    Concat(FieldChunks(fs))
  }

  /** A struct whose members are those of `a` then those of `b` lays out as `a`'s bytes then `b`'s. */
  lemma FlattenAppend(a: seq<Field>, b: seq<Field>)
    ensures Flatten(a + b) == Flatten(a) + Flatten(b)
  {
    assert FieldChunks(a + b) == FieldChunks(a) + FieldChunks(b);
    ConcatAppend(FieldChunks(a), FieldChunks(b));
  }

  /** Member `i` of a value of layout `ks` occupies bytes `Offset(i) .. Offset(i + 1)`. */
  lemma FieldAt(fs: seq<Field>, ks: seq<Kind>, i: nat)
    requires LayoutOf(fs) == ks && i < |fs|
    ensures Offset(Widths(ks), i + 1) <= |Flatten(fs)|
    ensures Flatten(fs)[Offset(Widths(ks), i)..Offset(Widths(ks), i + 1)] == Bytes(fs[i])
  {
    ConcatAt(FieldChunks(fs), i);
  }

  /** Reads a struct value of layout `ks` back from its bytes. */
  function Unflatten(ks: seq<Kind>, bytes: seq<bv8>): (fs: seq<Field>)
    requires |bytes| == Sum(Widths(ks))
    ensures LayoutOf(fs) == ks
    ensures Flatten(fs) == bytes
  {
    var chunks := Split(Widths(ks), bytes);
    assert forall i | 0 <= i < |ks| :: |chunks[i]| == Lengths(chunks)[i] == Width(ks[i]);
    var fs := seq(|ks|, i requires 0 <= i < |ks| => Read(ks[i], chunks[i]));
    assert FieldChunks(fs) == chunks;
    fs
  }

  /** Reading back the bytes of a value gives the value. */
  lemma UnflattenFlatten(fs: seq<Field>)
    ensures Unflatten(LayoutOf(fs), Flatten(fs)) == fs
  {
    SplitConcat(FieldChunks(fs));
    forall i | 0 <= i < |fs| {
      ReadBytes(fs[i]);
    }
  }
}

/** The ordering `get` compares keys with: byte strings ordered
    lexicographically, a proper prefix sorting first. */
module KeyOrder {
  import opened Bytes

  datatype Ordering = Less | Equal | Greater

  /** Three-way comparison of `a` against `b`, byte by byte from the front. */
  function Compare(a: seq<byte>, b: seq<byte>): (o: Ordering)
    decreases |a|
  {
    if |a| == 0 && |b| == 0 then Equal
    else if |a| == 0 then Less
    else if |b| == 0 then Greater
    else if a[0] < b[0] then Less
    else if a[0] > b[0] then Greater
    else Compare(a[1..], b[1..])
  }

  /** `a` sorts before `b`: either `a` is a proper prefix of `b`, or at the
      first position where they differ `a` holds the smaller byte. */
  predicate LexLess(a: seq<byte>, b: seq<byte>) {
    exists i :: 0 <= i <= |a| && i <= |b| && a[..i] == b[..i] &&
      ((i == |a| && i < |b|) || (i < |a| && i < |b| && a[i] < b[i]))
  }

  /** A common first byte does not change which string sorts first. */
  lemma {:induction false} LexLessTail(a: seq<byte>, b: seq<byte>)
    requires |a| > 0 && |b| > 0 && a[0] == b[0]
    ensures LexLess(a, b) <==> LexLess(a[1..], b[1..])
  {
    if LexLess(a, b) {
      var i :| 0 <= i <= |a| && i <= |b| && a[..i] == b[..i] &&
        ((i == |a| && i < |b|) || (i < |a| && i < |b| && a[i] < b[i]));
      assert i > 0;
      assert a[1..][..i - 1] == a[1..i] == b[1..i] == b[1..][..i - 1];
      assert a[1..][..i - 1] == b[1..][..i - 1];
    }
    if LexLess(a[1..], b[1..]) {
      var j :| 0 <= j <= |a[1..]| && j <= |b[1..]| && a[1..][..j] == b[1..][..j] &&
        ((j == |a[1..]| && j < |b[1..]|) || (j < |a[1..]| && j < |b[1..]| && a[1..][j] < b[1..][j]));
      assert a[..j + 1] == [a[0]] + a[1..][..j];
      assert b[..j + 1] == [b[0]] + b[1..][..j];
    }
  }

  /** Strings sharing a non-empty prefix share their first byte. */
  lemma {:induction false} PrefixHead(a: seq<byte>, b: seq<byte>, i: nat)
    ensures 0 < i <= |a| && i <= |b| && a[..i] == b[..i] ==> a[0] == b[0]
  {
    if 0 < i <= |a| && i <= |b| && a[..i] == b[..i] {
      assert a[..i][0] == b[..i][0];
    }
  }

  /** Differing first bytes decide the order. */
  lemma {:induction false} LexLessHead(a: seq<byte>, b: seq<byte>)
    requires |a| > 0 && |b| > 0 && a[0] != b[0]
    ensures LexLess(a, b) <==> a[0] < b[0]
  {
    if a[0] < b[0] {
      assert a[..0] == b[..0];
    }
    if LexLess(a, b) {
      var i :| 0 <= i <= |a| && i <= |b| && a[..i] == b[..i] &&
        ((i == |a| && i < |b|) || (i < |a| && i < |b| && a[i] < b[i]));
      PrefixHead(a, b, i);
    }
  }

  /** The empty string sorts before every other string and after none. */
  lemma {:induction false} LexLessEmpty(a: seq<byte>, b: seq<byte>)
    requires |a| == 0 || |b| == 0
    ensures LexLess(a, b) <==> |a| == 0 && |b| > 0
  {
    if |a| == 0 && |b| > 0 {
      assert a[..0] == b[..0];
    }
  }

  /** `Compare` is the lexicographic order: `Equal` exactly for equal
      strings, `Less` exactly when `a` sorts before `b`, `Greater` exactly
      when `b` sorts before `a`. */
  lemma {:induction false} CompareIsLexicographic(a: seq<byte>, b: seq<byte>)
    ensures Compare(a, b) == Equal <==> a == b
    ensures Compare(a, b) == Less <==> LexLess(a, b)
    ensures Compare(a, b) == Greater <==> LexLess(b, a)
    decreases |a|
  {
    if |a| == 0 || |b| == 0 {
      LexLessEmpty(a, b);
      LexLessEmpty(b, a);
    } else if a[0] != b[0] {
      LexLessHead(a, b);
      LexLessHead(b, a);
    } else {
      CompareIsLexicographic(a[1..], b[1..]);
      LexLessTail(a, b);
      LexLessTail(b, a);
      assert a == [a[0]] + a[1..];
      assert b == [b[0]] + b[1..];
    }
  }

  /** Swapping the arguments swaps `Less` and `Greater`. */
  lemma {:induction false} CompareFlips(a: seq<byte>, b: seq<byte>)
    ensures Compare(a, b) == Less <==> Compare(b, a) == Greater
    ensures Compare(a, b) == Equal <==> Compare(b, a) == Equal
  {
    CompareIsLexicographic(a, b);
    CompareIsLexicographic(b, a);
  }

  /** `Less` is transitive. */
  lemma {:induction false} CompareTransitive(a: seq<byte>, b: seq<byte>, c: seq<byte>)
    requires Compare(a, b) == Less && Compare(b, c) == Less
    ensures Compare(a, c) == Less
    decreases |a|
  {
    if |a| > 0 && |b| > 0 && |c| > 0 && a[0] == b[0] && b[0] == c[0] {
      CompareTransitive(a[1..], b[1..], c[1..]);
    }
  }
}

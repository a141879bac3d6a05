/** Bytes, Go strings as byte sequences, and the small sequence vocabulary every other module uses. */
module Bytes {

  datatype Option<+T> = None | Some(value: T)

  type byte = x: int | 0 <= x < 256

  /** A Go string: bytes, not necessarily well-formed UTF-8. */
  type text = seq<byte>

  const DASH: byte := 45
  const DASHDASH: text := [45, 45]
  const EQUALS: byte := 61

  predicate HasPrefix(s: text, prefix: text) {
    |prefix| <= |s| && s[..|prefix|] == prefix
  }

  function Zeros(n: nat): (z: seq<byte>)
    ensures |z| == n && forall i :: 0 <= i < n ==> z[i] == 0
  {
    seq(n, _ => 0)
  }

  function Flatten<T>(parts: seq<seq<T>>): seq<T> {
    if parts == [] then [] else parts[0] + Flatten(parts[1..])
  }

  lemma {:induction false} FlattenAppend<T>(left: seq<seq<T>>, right: seq<seq<T>>)
    ensures Flatten(left + right) == Flatten(left) + Flatten(right)
  {
    if left == [] {
      assert left + right == right;
    } else {
      assert (left + right)[1..] == left[1..] + right;
      FlattenAppend(left[1..], right);
    }
  }

  lemma Halves<T>(s: seq<T>, k: nat)
    requires k <= |s|
    ensures s[..k] + s[k..] == s
  {
  }

  lemma Regroup<T>(a: seq<T>, b: seq<T>, c: seq<T>)
    ensures (a + b) + c == a + (b + c)
  {
  }

  lemma ConsAppend<T>(s: seq<T>, rest: seq<T>)
    requires s != []
    ensures s + rest == [s[0]] + (s[1..] + rest)
  {
  }

  /** Two concatenations whose first parts are equally long agree exactly when both parts agree. */
  lemma SplitEqual<T>(a: seq<T>, b: seq<T>, c: seq<T>, d: seq<T>)
    requires |a| == |c|
    ensures a + b == c + d <==> a == c && b == d
  {
    if a + b == c + d {
      assert a == (a + b)[..|a|] && c == (c + d)[..|c|];
      assert b == (a + b)[|a|..] && d == (c + d)[|c|..];
    }
  }

  lemma {:induction false} SubsetSize<T>(a: set<T>, b: set<T>)
    requires a <= b
    ensures |a| <= |b|
  {
    if a != {} {
      var x :| x in a;
      SubsetSize(a - {x}, b - {x});
    }
  }

  /** Index of the first occurrence of b, or |s| when there is none. */
  function IndexOf(s: text, b: byte): (i: nat)
    ensures i <= |s|
    ensures i < |s| ==> s[i] == b
    ensures forall k :: 0 <= k < i ==> s[k] != b
  {
    if s == [] then 0 else if s[0] == b then 0 else 1 + IndexOf(s[1..], b)
  }

  lemma {:induction false} IndexOfAfter(s: text, b: byte, rest: text)
    requires b !in s
    ensures IndexOf(s + [b] + rest, b) == |s|
  {
    var i := IndexOf(s + [b] + rest, b);
    assert (s + [b] + rest)[|s|] == b;
    assert forall k :: 0 <= k < |s| ==> (s + [b] + rest)[k] == s[k];
  }

  /** strings.Split(s, sep) for a one-byte separator. */
  function Split(s: text, sep: byte): (parts: seq<text>)
    ensures parts != []
    decreases |s|
  {
    var i := IndexOf(s, sep);
    if i == |s| then [s] else [s[..i]] + Split(s[i + 1..], sep)
  }

  /** strings.Join. */
  function Join(parts: seq<text>, sep: byte): text
    requires parts != []
  {
    if |parts| == 1 then parts[0] else parts[0] + [sep] + Join(parts[1..], sep)
  }

  lemma {:induction false} JoinSplit(s: text, sep: byte)
    ensures Join(Split(s, sep), sep) == s
    decreases |s|
  {
    var i := IndexOf(s, sep);
    if i < |s| {
      JoinSplit(s[i + 1..], sep);
      assert Split(s, sep)[1..] == Split(s[i + 1..], sep);
      assert s == s[..i] + [sep] + s[i + 1..];
    }
  }

  /** Splitting a concatenation around a separator splits both sides. */
  lemma {:induction false} SplitAround(left: text, right: text, sep: byte)
    ensures Split(left + [sep] + right, sep) == Split(left, sep) + Split(right, sep)
    decreases |left|
  {
    var whole := left + [sep] + right;
    var i := IndexOf(left, sep);
    if i == |left| {
      IndexOfAfter(left, sep, right);
      assert whole[..i] == left && whole[i + 1..] == right;
    } else {
      var tail := left[i + 1..];
      assert whole == left[..i] + [sep] + (tail + [sep] + right);
      IndexOfAfter(left[..i], sep, tail + [sep] + right);
      assert whole[..i] == left[..i] && whole[i + 1..] == tail + [sep] + right;
      SplitAround(tail, right, sep);
      Regroup([left[..i]], Split(tail, sep), Split(right, sep));
    }
  }

  lemma {:induction false} JoinAppend(left: seq<text>, right: seq<text>, sep: byte)
    requires left != [] && right != []
    ensures Join(left + right, sep) == Join(left, sep) + [sep] + Join(right, sep)
  {
    assert (left + right)[1..] == left[1..] + right;
    if |left| == 1 {
      assert left[1..] + right == right;
    } else {
      JoinAppend(left[1..], right, sep);
    }
  }

  /** Go's bytewise string order. */
  predicate Less(a: text, b: text) {
    if b == [] then false
    else if a == [] then true
    else a[0] < b[0] || (a[0] == b[0] && Less(a[1..], b[1..]))
  }

  lemma {:induction false} LessTransitive(a: text, b: text, c: text)
    requires Less(a, b) && Less(b, c)
    ensures Less(a, c)
  {
    if a != [] && a[0] == b[0] == c[0] {
      LessTransitive(a[1..], b[1..], c[1..]);
    }
  }

  lemma {:induction false} LessTotal(a: text, b: text)
    ensures Less(a, b) || a == b || Less(b, a)
    ensures !(Less(a, b) && Less(b, a))
    ensures !Less(a, a)
  {
    if a != [] && b != [] {
      LessTotal(a[1..], b[1..]);
      assert a == [a[0]] + a[1..] && b == [b[0]] + b[1..];
    }
    if a != [] {
      LessTotal(a[1..], a[1..]);
    }
  }

  /** The order is decided at the first difference, where the end of a string comes before every byte. */
  lemma {:induction false} LessAtFirstDifference(a: text, b: text)
    ensures Less(a, b) <==>
              exists k: nat :: k <= |a| && k < |b| && a[..k] == b[..k] && (k == |a| || a[k] < b[k])
  {
    if a == [] || b == [] {
      assert a == [] && b != [] ==> a[..0] == b[..0];
    } else if a[0] == b[0] {
      LessAtFirstDifference(a[1..], b[1..]);
      if Less(a, b) {
        var k: nat :| k <= |a[1..]| && k < |b[1..]| && a[1..][..k] == b[1..][..k] && (k == |a[1..]| || a[1..][k] < b[1..][k]);
        assert a[..k + 1] == [a[0]] + a[1..][..k] && b[..k + 1] == [b[0]] + b[1..][..k];
      }
      if k: nat :| k <= |a| && k < |b| && a[..k] == b[..k] && (k == |a| || a[k] < b[k]) {
        assert k > 0;
        assert a[1..][..k - 1] == a[..k][1..] && b[1..][..k - 1] == b[..k][1..];
      }
    } else {
      assert a[..0] == b[..0];
      forall k: nat | 0 < k <= |a| && k < |b| ensures a[..k] != b[..k] {
        assert a[..k][0] == a[0] && b[..k][0] == b[0];
      }
    }
  }
}

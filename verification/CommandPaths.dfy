/** Command paths in internal/cli/catalog.go: the collision check of Catalog.Validate and Catalog.Match. */
module CommandPaths {
  import opened Bytes

  const SPACE: byte := 32

  function Words(path: text): (w: seq<text>)
    ensures w != []
  {
    Split(path, SPACE)
  }

  /** The string test the check makes is the word test Match needs. */
  lemma PrefixIsWordPrefix(short: text, long: text)
    ensures HasPrefix(long, short + [32]) <==> Words(short) < Words(long)
  {
    if HasPrefix(long, short + [SPACE]) {
      var rest := long[|short| + 1..];
      assert long == short + [SPACE] + rest;
      SplitAround(short, rest, SPACE);
    }
    if Words(short) < Words(long) {
      var more := Words(long)[|Words(short)|..];
      assert Words(long) == Words(short) + more;
      JoinAppend(Words(short), more, SPACE);
      JoinSplit(short, SPACE);
      JoinSplit(long, SPACE);
      assert long == short + [SPACE] + Join(more, SPACE);
    }
  }

  lemma SameWordsSamePath(a: text, b: text)
    ensures a == b <==> Words(a) == Words(b)
  {
    JoinSplit(a, SPACE);
    JoinSplit(b, SPACE);
  }

  /** No path is a word prefix of another, nor equal to it. */
  ghost predicate PrefixFree(paths: seq<text>) {
    forall i, j :: 0 <= i < |paths| && 0 <= j < |paths| && i != j ==> !(Words(paths[i]) <= Words(paths[j]))
  }

  ghost predicate Separate(a: text, b: text) {
    !(Words(a) <= Words(b)) && !(Words(b) <= Words(a))
  }

  lemma CollisionTest(a: text, b: text)
    ensures Separate(a, b) <==> !HasPrefix(a, b + [SPACE]) && !HasPrefix(b, a + [SPACE]) && a != b
  {
    PrefixIsWordPrefix(a, b);
    PrefixIsWordPrefix(b, a);
    SameWordsSamePath(a, b);
  }

  /** The check of Catalog.Validate: each path against the set of earlier ones. */
  method CheckCollisions(paths: seq<text>) returns (ok: bool)
    ensures ok <==> PrefixFree(paths)
  {
    var seen: set<text> := {};
    for k := 0 to |paths|
      invariant forall p :: p in seen <==> p in paths[..k]
      invariant forall i, j :: 0 <= i < j < k ==> Separate(paths[i], paths[j])
    {
      var collides := CollidesWith(paths[k], seen);
      if collides {
        ghost var p :| p in seen && !Separate(paths[k], p);
        ghost var i :| 0 <= i < k && paths[..k][i] == p;
        return false;
      }
      forall i | 0 <= i < k ensures Separate(paths[i], paths[k]) {
        assert paths[..k][i] in seen;
      }
      assert paths[..k + 1] == paths[..k] + [paths[k]];
      seen := seen + {paths[k]};
    }
    forall i, j | 0 <= i < |paths| && 0 <= j < |paths| && i != j ensures !(Words(paths[i]) <= Words(paths[j])) {
      assert if i < j then Separate(paths[i], paths[j]) else Separate(paths[j], paths[i]);
    }
    return true;
  }

  method CollidesWith(path: text, seen: set<text>) returns (collides: bool)
    ensures collides <==> exists p :: p in seen && !Separate(path, p)
  {
    var remaining := seen;
    while remaining != {}
      invariant remaining <= seen
      invariant forall p :: p in seen && p !in remaining ==> Separate(path, p)
      decreases |remaining|
    {
      var existing :| existing in remaining;
      CollisionTest(path, existing);
      if HasPrefix(path, existing + [SPACE]) || HasPrefix(existing, path + [SPACE]) || existing == path {
        return true;
      }
      remaining := remaining - {existing};
    }
    return false;
  }

  /** A match is a longest path whose words begin the arguments; there is none only if no path's words do. */
  ghost predicate IsMatch(paths: seq<text>, args: seq<text>, matched: Option<(text, seq<text>)>) {
    (matched.None? ==> forall i :: 0 <= i < |paths| ==> !(Words(paths[i]) <= args))
    && (matched.Some? ==>
          matched.value.0 in paths && Words(matched.value.0) + matched.value.1 == args
          && forall i :: 0 <= i < |paths| && Words(paths[i]) <= args ==> |Words(paths[i])| <= |Words(matched.value.0)|)
  }

  method Match(paths: seq<text>, args: seq<text>) returns (result: Option<(text, seq<text>)>)
    ensures IsMatch(paths, args, result)
  {
    var matched: text, matchedWords: nat := [], 0;
    for k := 0 to |paths|
      invariant forall i :: 0 <= i < k && Words(paths[i]) <= args ==> |Words(paths[i])| <= matchedWords
      invariant matchedWords > 0 ==> matched in paths && Words(matched) <= args && |Words(matched)| == matchedWords
    {
      var words := Words(paths[k]);
      if |words| <= matchedWords || |words| > |args| {
        continue;
      }
      var match_ := true;
      var index := 0;
      while index < |words|
        invariant 0 <= index <= |words|
        invariant match_ && words[..index] == args[..index]
      {
        if args[index] != words[index] {
          match_ := false;
          break;
        }
        index := index + 1;
      }
      if match_ {
        assert words == words[..|words|] == args[..|words|];
        matched := paths[k];
        matchedWords := |words|;
      }
    }
    if matchedWords == 0 {
      return None;
    }
    return Some((matched, args[matchedWords..]));
  }

  /** In a checked catalog at most one path can begin the arguments. */
  lemma AtMostOneMatches(paths: seq<text>, args: seq<text>, i: nat, j: nat)
    requires PrefixFree(paths) && i < |paths| && j < |paths|
    requires Words(paths[i]) <= args && Words(paths[j]) <= args
    ensures i == j
  {
    PrefixesNest(Words(paths[i]), Words(paths[j]), args);
    PrefixesNest(Words(paths[j]), Words(paths[i]), args);
  }

  lemma PrefixesNest(a: seq<text>, b: seq<text>, args: seq<text>)
    requires a <= args && b <= args
    ensures |a| <= |b| ==> a <= b
  {
    if |a| <= |b| {
      assert a == args[..|a|] == args[..|b|][..|a|];
    }
  }

  /** So the result does not depend on the order of the catalog. */
  lemma MatchIgnoresOrder(paths: seq<text>, others: seq<text>, args: seq<text>,
                          m: Option<(text, seq<text>)>, n: Option<(text, seq<text>)>)
    requires PrefixFree(paths) && forall p :: p in paths <==> p in others
    requires IsMatch(paths, args, m) && IsMatch(others, args, n)
    ensures m == n
  {
    if m.Some? {
      var i :| 0 <= i < |paths| && paths[i] == m.value.0;
      assert paths[i] in others;
    }
    if n.Some? {
      assert n.value.0 in paths;
      var j :| 0 <= j < |paths| && paths[j] == n.value.0;
      if m.Some? {
        var i :| 0 <= i < |paths| && paths[i] == m.value.0;
        AtMostOneMatches(paths, args, i, j);
        assert m.value.1 == args[|Words(paths[i])|..] && n.value.1 == args[|Words(paths[j])|..];
      }
    }
  }
}

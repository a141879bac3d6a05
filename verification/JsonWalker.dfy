/** The duplicate-key walkers over a JSON token stream: tools/contractlint/contracts.go (nesting bounded at 128)
    and tools/artifactevidence/evidence.go (unbounded). */
module JsonWalker {
  import opened Bytes

  const MAX_DEPTH: nat := 128

  datatype Token = OpenObject | CloseObject | OpenArray | CloseArray | Text(value: text) | Scalar(raw: text)

  predicate Closes(t: Token) {
    t.CloseObject? || t.CloseArray?
  }

  // ----- documents

  datatype Value = Leaf(token: Token) | Array(items: Items) | Object(members: Members)
  datatype Items = NoItems | Item(value: Value, more: Items)
  datatype Members = NoMembers | Member(key: text, value: Value, rest: Members)

  function Tokens(v: Value): seq<Token> {
    match v
    case Leaf(t) => [t]
    case Array(items) => [OpenArray] + (ItemTokens(items) + [CloseArray])
    case Object(members) => [OpenObject] + (MemberTokens(members) + [CloseObject])
  }

  function ItemTokens(items: Items): seq<Token> {
    match items
    case NoItems => []
    case Item(v, more) => Tokens(v) + ItemTokens(more)
  }

  function MemberTokens(members: Members): seq<Token> {
    match members
    case NoMembers => []
    case Member(k, v, rest) => [Text(k)] + (Tokens(v) + MemberTokens(rest))
  }

  function Keys(members: Members): set<text> {
    match members
    case NoMembers => {}
    case Member(k, _, rest) => {k} + Keys(rest)
  }

  /** A document whose leaves are scalars and in which no object repeats a key. */
  predicate Sound(v: Value) {
    match v
    case Leaf(t) => t.Text? || t.Scalar?
    case Array(items) => SoundItems(items)
    case Object(members) => SoundMembers(members)
  }

  predicate SoundItems(items: Items) {
    items.Item? ==> Sound(items.value) && SoundItems(items.more)
  }

  predicate SoundMembers(members: Members) {
    members.Member? ==>
      members.key !in Keys(members.rest) && Sound(members.value) && SoundMembers(members.rest)
  }

  /** Nesting levels below the root. */
  function Height(v: Value): nat {
    match v
    case Leaf(_) => 0
    case Array(items) => ItemsHeight(items)
    case Object(members) => MembersHeight(members)
  }

  function ItemsHeight(items: Items): nat {
    match items
    case NoItems => 0
    case Item(v, more) => Max(1 + Height(v), ItemsHeight(more))
  }

  function MembersHeight(members: Members): nat {
    match members
    case NoMembers => 0
    case Member(_, v, rest) => Max(1 + Height(v), MembersHeight(rest))
  }

  function Max(a: nat, b: nat): nat {
    if a < b then b else a
  }

  // ----- the walk on token sequences; limit None is the unbounded walker

  predicate TooDeep(depth: nat, limit: Option<nat>) {
    limit.Some? && depth > limit.value
  }

  /** Consumes one value and returns the rest. */
  function Walk(ts: seq<Token>, depth: nat, limit: Option<nat>): (rest: Option<seq<Token>>)
    ensures rest.Some? ==> |rest.value| < |ts|
    decreases |ts|, 1
  {
    if TooDeep(depth, limit) || ts == [] then None
    else match ts[0]
      case OpenObject => WalkMembers(ts[1..], {}, depth, limit)
      case OpenArray => WalkItems(ts[1..], depth, limit)
      case CloseObject => None
      case CloseArray => None
      case _ => Some(ts[1..])
  }

  function WalkItems(ts: seq<Token>, depth: nat, limit: Option<nat>): (rest: Option<seq<Token>>)
    ensures rest.Some? ==> |rest.value| < |ts|
    decreases |ts|, 2
  {
    if ts == [] then None
    else if Closes(ts[0]) then if ts[0].CloseArray? then Some(ts[1..]) else None
    else
      var next := Walk(ts, depth + 1, limit);
      if next.None? then None else WalkItems(next.value, depth, limit)
  }

  function WalkMembers(ts: seq<Token>, seen: set<text>, depth: nat, limit: Option<nat>): (rest: Option<seq<Token>>)
    ensures rest.Some? ==> |rest.value| < |ts|
    decreases |ts|, 2
  {
    if ts == [] then None
    else if Closes(ts[0]) then if ts[0].CloseObject? then Some(ts[1..]) else None
    else if !ts[0].Text? || ts[0].value in seen then None
    else
      var next := Walk(ts[1..], depth + 1, limit);
      if next.None? then None else WalkMembers(next.value, seen + {ts[0].value}, depth, limit)
  }

  predicate Fits(height: nat, depth: nat, limit: Option<nat>) {
    limit.Some? ==> depth + height <= limit.value
  }

  // ----- whatever satisfies the specification is consumed exactly

  lemma {:induction false} WalkConsumes(v: Value, rest: seq<Token>, depth: nat, limit: Option<nat>)
    requires Sound(v) && Fits(Height(v), depth, limit)
    ensures Walk(Tokens(v) + rest, depth, limit) == Some(rest)
  {
    match v
    case Leaf(t) =>
      assert ([t] + rest)[1..] == rest;
    case Array(items) =>
      WalkItemsConsumes(items, rest, depth, limit);
      assert (Tokens(v) + rest)[1..] == ItemTokens(items) + ([CloseArray] + rest);
    case Object(members) =>
      WalkMembersConsumes(members, {}, rest, depth, limit);
      assert (Tokens(v) + rest)[1..] == MemberTokens(members) + ([CloseObject] + rest);
  }

  lemma {:induction false} WalkItemsConsumes(items: Items, rest: seq<Token>, depth: nat, limit: Option<nat>)
    requires SoundItems(items) && Fits(ItemsHeight(items), depth, limit)
    ensures WalkItems(ItemTokens(items) + ([CloseArray] + rest), depth, limit) == Some(rest)
  {
    var end := [CloseArray] + rest;
    match items
    case NoItems =>
      assert [] + end == end;
    case Item(v, more) =>
      Regroup(Tokens(v), ItemTokens(more), end);
      FirstToken(v, ItemTokens(more) + end);
      WalkConsumes(v, ItemTokens(more) + end, depth + 1, limit);
      WalkItemsConsumes(more, rest, depth, limit);
  }

  lemma {:induction false} WalkMembersConsumes(members: Members, seen: set<text>, rest: seq<Token>, depth: nat, limit: Option<nat>)
    requires SoundMembers(members) && Keys(members) !! seen && Fits(MembersHeight(members), depth, limit)
    ensures WalkMembers(MemberTokens(members) + ([CloseObject] + rest), seen, depth, limit) == Some(rest)
  {
    var end := [CloseObject] + rest;
    match members
    case NoMembers =>
      assert [] + end == end;
    case Member(k, v, more) =>
      var tail := Tokens(v) + (MemberTokens(more) + end);
      assert MemberTokens(members) + end == [Text(k)] + tail;
      WalkConsumes(v, MemberTokens(more) + end, depth + 1, limit);
      WalkMembersConsumes(more, seen + {k}, rest, depth, limit);
  }

  lemma FirstToken(v: Value, rest: seq<Token>)
    requires Sound(v)
    ensures Tokens(v) + rest != [] && !Closes((Tokens(v) + rest)[0])
  {
  }

  // ----- whatever is consumed satisfies it

  lemma {:induction false} WalkFinds(ts: seq<Token>, depth: nat, limit: Option<nat>) returns (v: Value)
    requires Walk(ts, depth, limit).Some?
    ensures Sound(v) && Fits(Height(v), depth, limit)
    ensures ts == Tokens(v) + Walk(ts, depth, limit).value
    decreases |ts|, 1
  {
    ConsAppend(ts, []);
    match ts[0]
    case OpenObject =>
      var members := WalkMembersFinds(ts[1..], {}, depth, limit);
      v := Object(members);
    case OpenArray =>
      var items := WalkItemsFinds(ts[1..], depth, limit);
      v := Array(items);
    case Text(_) => v := Leaf(ts[0]);
    case Scalar(_) => v := Leaf(ts[0]);
  }

  lemma {:induction false} WalkItemsFinds(ts: seq<Token>, depth: nat, limit: Option<nat>) returns (items: Items)
    requires WalkItems(ts, depth, limit).Some? && !TooDeep(depth, limit)
    ensures SoundItems(items) && Fits(ItemsHeight(items), depth, limit)
    ensures ts == ItemTokens(items) + ([CloseArray] + WalkItems(ts, depth, limit).value)
    decreases |ts|, 2
  {
    if Closes(ts[0]) {
      items := NoItems;
    } else {
      var v := WalkFinds(ts, depth + 1, limit);
      var next := Walk(ts, depth + 1, limit).value;
      var more := WalkItemsFinds(next, depth, limit);
      items := Item(v, more);
      Regroup(Tokens(v), ItemTokens(more), [CloseArray] + WalkItems(ts, depth, limit).value);
    }
  }

  lemma {:induction false} WalkMembersFinds(ts: seq<Token>, seen: set<text>, depth: nat, limit: Option<nat>)
    returns (members: Members)
    requires WalkMembers(ts, seen, depth, limit).Some? && !TooDeep(depth, limit)
    ensures SoundMembers(members) && Keys(members) !! seen && Fits(MembersHeight(members), depth, limit)
    ensures ts == MemberTokens(members) + ([CloseObject] + WalkMembers(ts, seen, depth, limit).value)
    decreases |ts|, 2
  {
    if Closes(ts[0]) {
      members := NoMembers;
    } else {
      var k := ts[0].value;
      var v := WalkFinds(ts[1..], depth + 1, limit);
      var next := Walk(ts[1..], depth + 1, limit).value;
      var more := WalkMembersFinds(next, seen + {k}, depth, limit);
      members := Member(k, v, more);
      var end := [CloseObject] + WalkMembers(ts, seen, depth, limit).value;
      assert ts == [Text(k)] + ts[1..];
      Regroup(Tokens(v), MemberTokens(more), end);
      Regroup([Text(k)], Tokens(v) + MemberTokens(more), end);
    }
  }

  // ----- documents and token streams

  /** A whole stream is one document: token sequences read back in only one way. */
  lemma {:induction false} Unambiguous(v: Value, w: Value, r: seq<Token>, s: seq<Token>)
    requires Sound(v) && Tokens(v) + r == Tokens(w) + s
    requires Sound(w)
    ensures v == w && r == s
    decreases v
  {
    var a, b := Tokens(v) + r, Tokens(w) + s;
    assert a[0] == Tokens(v)[0] && b[0] == Tokens(w)[0];
    match v
    case Leaf(t) =>
      assert a[1..] == r && b[1..] == s;
    case Array(items) =>
      assert a[1..] == ItemTokens(items) + ([CloseArray] + r);
      assert b[1..] == ItemTokens(w.items) + ([CloseArray] + s);
      UnambiguousItems(items, w.items, r, s);
    case Object(members) =>
      assert a[1..] == MemberTokens(members) + ([CloseObject] + r);
      assert b[1..] == MemberTokens(w.members) + ([CloseObject] + s);
      UnambiguousMembers(members, w.members, r, s);
  }

  lemma {:induction false} UnambiguousItems(i: Items, j: Items, r: seq<Token>, s: seq<Token>)
    requires SoundItems(i) && SoundItems(j)
    requires ItemTokens(i) + ([CloseArray] + r) == ItemTokens(j) + ([CloseArray] + s)
    ensures i == j && r == s
    decreases i
  {
    var x, y := [CloseArray] + r, [CloseArray] + s;
    ItemsStart(i, r);
    ItemsStart(j, s);
    if i.Item? {
      Regroup(Tokens(i.value), ItemTokens(i.more), x);
      Regroup(Tokens(j.value), ItemTokens(j.more), y);
      Unambiguous(i.value, j.value, ItemTokens(i.more) + x, ItemTokens(j.more) + y);
      UnambiguousItems(i.more, j.more, r, s);
    } else {
      assert r == (ItemTokens(i) + x)[1..] && s == (ItemTokens(j) + y)[1..];
    }
  }

  lemma ItemsStart(i: Items, r: seq<Token>)
    requires SoundItems(i)
    ensures i.Item? <==> !Closes((ItemTokens(i) + ([CloseArray] + r))[0])
  {
    if i.Item? {
      Regroup(Tokens(i.value), ItemTokens(i.more), [CloseArray] + r);
      FirstToken(i.value, ItemTokens(i.more) + ([CloseArray] + r));
    }
  }

  lemma {:induction false} UnambiguousMembers(m: Members, n: Members, r: seq<Token>, s: seq<Token>)
    requires SoundMembers(m) && SoundMembers(n)
    requires MemberTokens(m) + ([CloseObject] + r) == MemberTokens(n) + ([CloseObject] + s)
    ensures m == n && r == s
    decreases m
  {
    var x, y := [CloseObject] + r, [CloseObject] + s;
    assert m.Member? ==> (MemberTokens(m) + x)[0] == Text(m.key);
    assert n.Member? ==> (MemberTokens(n) + y)[0] == Text(n.key);
    if m.Member? {
      assert (MemberTokens(m) + x)[1..] == Tokens(m.value) + (MemberTokens(m.rest) + x);
      assert (MemberTokens(n) + y)[1..] == Tokens(n.value) + (MemberTokens(n.rest) + y);
      Unambiguous(m.value, n.value, MemberTokens(m.rest) + x, MemberTokens(n.rest) + y);
      UnambiguousMembers(m.rest, n.rest, r, s);
    } else {
      assert r == (MemberTokens(m) + x)[1..] && s == (MemberTokens(n) + y)[1..];
    }
  }

  /** The whole stream is one value the walk accepts. */
  predicate Accepted(ts: seq<Token>, limit: Option<nat>) {
    Walk(ts, 0, limit) == Some([])
  }

  /** Exactly the streams of sound documents within the bound are accepted. */
  lemma AcceptedExactly(ts: seq<Token>, limit: Option<nat>)
    ensures Accepted(ts, limit) <==> exists v :: ts == Tokens(v) && Sound(v) && Fits(Height(v), 0, limit)
  {
    if Accepted(ts, limit) {
      var v := WalkFinds(ts, 0, limit);
      assert Tokens(v) + [] == Tokens(v);
    }
    if v :| ts == Tokens(v) && Sound(v) && Fits(Height(v), 0, limit) {
      WalkConsumes(v, [], 0, limit);
      assert Tokens(v) + [] == ts;
    }
  }

  /** The bounded walker accepts what the unbounded one accepts, minus the documents that are too deep. */
  lemma BoundOnlyLimitsDepth(ts: seq<Token>, limit: nat)
    ensures Accepted(ts, Some(limit)) <==>
              Accepted(ts, None) && forall v :: ts == Tokens(v) && Sound(v) ==> Height(v) <= limit
  {
    AcceptedExactly(ts, Some(limit));
    AcceptedExactly(ts, None);
    forall v, w | ts == Tokens(v) && Sound(v) && ts == Tokens(w) && Sound(w) ensures v == w {
      Unambiguous(v, w, [], []);
    }
  }

  // ----- the recursive consumers

  /** json.Decoder: the tokens it delivers before it fails, and whether that failure is io.EOF. */
  class Decoder {
    const tokens: seq<Token>
    var position: nat
    const endsAtEof: bool

    ghost predicate Valid()
      reads this
    {
      position <= |tokens|
    }

    ghost function Rest(): seq<Token>
      requires Valid()
      reads this
    {
      tokens[position..]
    }

    constructor (tokens: seq<Token>, endsAtEof: bool)
      ensures Valid() && Rest() == tokens && this.endsAtEof == endsAtEof
    {
      this.tokens := tokens;
      this.position := 0;
      this.endsAtEof := endsAtEof;
    }

    method NextToken() returns (t: Option<Token>)
      requires Valid()
      modifies this
      ensures Valid()
      ensures old(Rest()) == [] ==> t.None? && Rest() == []
      ensures old(Rest()) != [] ==> t == Some(old(Rest())[0]) && Rest() == old(Rest())[1..]
    {
      if position == |tokens| {
        return None;
      }
      t := Some(tokens[position]);
      position := position + 1;
    }

    /** Unspecified once the decoder is about to fail. */
    method More() returns (more: bool)
      requires Valid()
      ensures Rest() != [] ==> more == !Closes(Rest()[0])
    {
      if position == |tokens| {
        more := *;
      } else {
        more := !Closes(tokens[position]);
      }
    }

    method AtEof() returns (eof: bool)
      requires Valid()
      ensures eof <==> Rest() == [] && endsAtEof
    {
      eof := position == |tokens| && endsAtEof;
    }
  }

  /** consumeJSONValue of contracts.go. */
  method ConsumeBounded(decoder: Decoder, depth: nat) returns (ok: bool)
    requires decoder.Valid()
    modifies decoder
    ensures decoder.Valid()
    ensures ok <==> Walk(old(decoder.Rest()), depth, Some(128)).Some?
    ensures ok ==> decoder.Rest() == Walk(old(decoder.Rest()), depth, Some(128)).value
    decreases |decoder.tokens| - decoder.position
  {
    if depth > MAX_DEPTH {
      return false;
    }
    ghost var start := decoder.Rest();
    var token := decoder.NextToken();
    if token.None? {
      return false;
    }
    if token.value.OpenObject? {
      var seen: set<text> := {};
      var more := decoder.More();
      while more
        invariant decoder.Valid() && decoder.position > old(decoder.position)
        invariant WalkMembers(decoder.Rest(), seen, depth, Some(MAX_DEPTH)) == Walk(start, depth, Some(MAX_DEPTH))
        invariant decoder.Rest() != [] ==> more == !Closes(decoder.Rest()[0])
        decreases |decoder.tokens| - decoder.position
      {
        var keyToken := decoder.NextToken();
        if keyToken.None? || !keyToken.value.Text? || keyToken.value.value in seen {
          return false;
        }
        seen := seen + {keyToken.value.value};
        var consumed := ConsumeBounded(decoder, depth + 1);
        if !consumed {
          return false;
        }
        more := decoder.More();
      }
      var closing := decoder.NextToken();
      return closing == Some(CloseObject);
    } else if token.value.OpenArray? {
      var more := decoder.More();
      while more
        invariant decoder.Valid() && decoder.position > old(decoder.position)
        invariant WalkItems(decoder.Rest(), depth, Some(MAX_DEPTH)) == Walk(start, depth, Some(MAX_DEPTH))
        invariant decoder.Rest() != [] ==> more == !Closes(decoder.Rest()[0])
        decreases |decoder.tokens| - decoder.position
      {
        var consumed := ConsumeBounded(decoder, depth + 1);
        if !consumed {
          return false;
        }
        more := decoder.More();
      }
      var closing := decoder.NextToken();
      return closing == Some(CloseArray);
    }
    return !Closes(token.value);
  }

  /** consumeJSONValue of evidence.go. */
  method ConsumeUnbounded(decoder: Decoder) returns (ok: bool)
    requires decoder.Valid()
    modifies decoder
    ensures decoder.Valid()
    ensures ok <==> Walk(old(decoder.Rest()), 0, None).Some?
    ensures ok ==> decoder.Rest() == Walk(old(decoder.Rest()), 0, None).value
    decreases |decoder.tokens| - decoder.position
  {
    ghost var start := decoder.Rest();
    var token := decoder.NextToken();
    if token.None? {
      return false;
    }
    if token.value.OpenObject? {
      var seen: set<text> := {};
      var more := decoder.More();
      while more
        invariant decoder.Valid() && decoder.position > old(decoder.position)
        invariant WalkMembers(decoder.Rest(), seen, 0, None) == Walk(start, 0, None)
        invariant decoder.Rest() != [] ==> more == !Closes(decoder.Rest()[0])
        decreases |decoder.tokens| - decoder.position
      {
        var keyToken := decoder.NextToken();
        if keyToken.None? || !keyToken.value.Text? || keyToken.value.value in seen {
          return false;
        }
        seen := seen + {keyToken.value.value};
        UnboundedIgnoresDepth(decoder.Rest(), 0, 1);
        var consumed := ConsumeUnbounded(decoder);
        if !consumed {
          return false;
        }
        more := decoder.More();
      }
      var end := decoder.NextToken();
      return end == Some(CloseObject);
    } else if token.value.OpenArray? {
      var more := decoder.More();
      while more
        invariant decoder.Valid() && decoder.position > old(decoder.position)
        invariant WalkItems(decoder.Rest(), 0, None) == Walk(start, 0, None)
        invariant decoder.Rest() != [] ==> more == !Closes(decoder.Rest()[0])
        decreases |decoder.tokens| - decoder.position
      {
        UnboundedIgnoresDepth(decoder.Rest(), 0, 1);
        var consumed := ConsumeUnbounded(decoder);
        if !consumed {
          return false;
        }
        more := decoder.More();
      }
      var end := decoder.NextToken();
      return end == Some(CloseArray);
    }
    return !Closes(token.value);
  }

  lemma {:induction false} UnboundedIgnoresDepth(ts: seq<Token>, d: nat, e: nat)
    ensures Walk(ts, d, None) == Walk(ts, e, None)
    decreases |ts|, 1
  {
    if ts != [] && ts[0].OpenObject? {
      UnboundedMembersIgnoreDepth(ts[1..], {}, d, e);
    } else if ts != [] && ts[0].OpenArray? {
      UnboundedItemsIgnoreDepth(ts[1..], d, e);
    }
  }

  lemma {:induction false} UnboundedItemsIgnoreDepth(ts: seq<Token>, d: nat, e: nat)
    ensures WalkItems(ts, d, None) == WalkItems(ts, e, None)
    decreases |ts|, 2
  {
    if ts != [] && !Closes(ts[0]) {
      UnboundedIgnoresDepth(ts, d + 1, e + 1);
      var next := Walk(ts, d + 1, None);
      if next.Some? {
        UnboundedItemsIgnoreDepth(next.value, d, e);
      }
    }
  }

  lemma {:induction false} UnboundedMembersIgnoreDepth(ts: seq<Token>, seen: set<text>, d: nat, e: nat)
    ensures WalkMembers(ts, seen, d, None) == WalkMembers(ts, seen, e, None)
    decreases |ts|, 2
  {
    if ts != [] && ts[0].Text? {
      UnboundedIgnoresDepth(ts[1..], d + 1, e + 1);
      var next := Walk(ts[1..], d + 1, None);
      if next.Some? {
        UnboundedMembersIgnoreDepth(next.value, seen + {ts[0].value}, d, e);
      }
    }
  }

  /** rejectDuplicateJSONKeys: one value, then the end of the input. */
  method RejectDuplicateKeys(tokens: seq<Token>, endsAtEof: bool) returns (ok: bool)
    ensures ok <==> endsAtEof && Accepted(tokens, Some(128))
  {
    var decoder := new Decoder(tokens, endsAtEof);
    ok := ConsumeBounded(decoder, 0);
    if ok {
      ok := decoder.AtEof();
    }
  }

  /** rejectDuplicateJSONFields. */
  method RejectDuplicateFields(tokens: seq<Token>, endsAtEof: bool) returns (ok: bool)
    ensures ok <==> endsAtEof && Accepted(tokens, None)
  {
    var decoder := new Decoder(tokens, endsAtEof);
    ok := ConsumeUnbounded(decoder);
    if ok {
      ok := decoder.AtEof();
    }
  }
}

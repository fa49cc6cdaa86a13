/**
 * internal/config/config.go, lines 167-220: one JSON value without nulls and without repeated
 * keys at any depth.  The decoder is a stream of tokens; commas, colons and characters are below it.
 */
module StrictJson {
  import opened Wrappers

  datatype Token = OpenObject | CloseObject | OpenArray | CloseArray | Text(s: string) | Number(digits: string) | Bool(b: bool) | Null {
    predicate Closes() { CloseObject? || CloseArray? }
  }

  // ---------------------------------------------------------------------------
  // JSON values
  // ---------------------------------------------------------------------------

  datatype Json = Leaf(token: Token) | Array(items: Items) | Object(members: Members)
  datatype Items = NoItems | Item(head: Json, tail: Items)
  datatype Members = NoMembers | Member(key: string, value: Json, rest: Members)

  /** Leaves are scalars or null. */
  predicate IsJson(j: Json) {
    match j
    case Leaf(t) => t.Text? || t.Number? || t.Bool? || t.Null?
    case Array(items) => AreItems(items)
    case Object(members) => AreMembers(members)
  }

  predicate AreItems(items: Items) {
    items.NoItems? || (IsJson(items.head) && AreItems(items.tail))
  }

  predicate AreMembers(members: Members) {
    members.NoMembers? || (IsJson(members.value) && AreMembers(members.rest))
  }

  function Tokens(j: Json): seq<Token> {
    match j
    case Leaf(t) => [t]
    case Array(items) => [OpenArray] + ItemTokens(items) + [CloseArray]
    case Object(members) => [OpenObject] + MemberTokens(members) + [CloseObject]
  }

  function ItemTokens(items: Items): seq<Token> {
    match items
    case NoItems => []
    case Item(head, tail) => Tokens(head) + ItemTokens(tail)
  }

  function MemberTokens(members: Members): seq<Token> {
    match members
    case NoMembers => []
    case Member(key, value, rest) => [Text(key)] + Tokens(value) + MemberTokens(rest)
  }

  function Keys(members: Members): seq<string> {
    match members
    case NoMembers => []
    case Member(key, _, rest) => [key] + Keys(rest)
  }

  /** No null, and no object with the same key twice (RFC 8259, section 4), at any depth. */
  ghost predicate Clean(j: Json) {
    match j
    case Leaf(t) => !t.Null?
    case Array(items) => CleanItems(items)
    case Object(members) => Distinct(Keys(members)) && CleanMembers(members)
  }

  ghost predicate CleanItems(items: Items) {
    items.NoItems? || (Clean(items.head) && CleanItems(items.tail))
  }

  ghost predicate CleanMembers(members: Members) {
    members.NoMembers? || (Clean(members.value) && CleanMembers(members.rest))
  }

  ghost predicate Distinct(keys: seq<string>) {
    forall i, j :: 0 <= i < j < |keys| ==> keys[i] != keys[j]
  }

  /** The same, met one key at a time. */
  predicate Unseen(members: Members, seen: set<string>) {
    members.NoMembers? || (members.key !in seen && Unseen(members.rest, seen + {members.key}))
  }

  lemma {:induction false} UnseenIsDistinct(members: Members, seen: set<string>)
    ensures Unseen(members, seen) <==> Distinct(Keys(members)) && forall k :: k in Keys(members) ==> k !in seen
  {
    if members.Member? {
      UnseenIsDistinct(members.rest, seen + {members.key});
      var rest := Keys(members.rest);
      var all := Keys(members);
      assert all == [members.key] + rest && all[0] == members.key;
      assert forall i :: 0 <= i < |rest| ==> all[i + 1] == rest[i];
      if Distinct(all) {
        forall i, j | 0 <= i < j < |rest|
          ensures rest[i] != rest[j]
        {
          assert all[i + 1] == rest[i] && all[j + 1] == rest[j];
        }
        assert members.key !in rest;
      }
    }
  }

  // ---------------------------------------------------------------------------
  // The decoder
  // ---------------------------------------------------------------------------

  /** What the decoder expects inside an open bracket. */
  datatype Place = InArray | AtKey | AtValue

  /** The tokens to come and the open brackets, innermost first. */
  datatype Input = Input(tokens: seq<Token>, open: seq<Place>)

  predicate Allowed(open: seq<Place>, t: Token) {
    if open == [] then !t.Closes()
    else match open[0]
      case InArray => !t.CloseObject?
      case AtKey => t.Text? || t.CloseObject?
      case AtValue => !t.Closes()
  }

  /** After a whole value. */
  function Valued(open: seq<Place>): seq<Place> {
    if open != [] && open[0].AtValue? then [AtKey] + open[1..] else open
  }

  function Opened(open: seq<Place>, t: Token): seq<Place>
    requires Allowed(open, t)
  {
    match t
    case OpenObject => [AtKey] + open
    case OpenArray => [InArray] + open
    case CloseObject => Valued(open[1..])
    case CloseArray => Valued(open[1..])
    case _ => if open != [] && open[0].AtKey? then [AtValue] + open[1..] else Valued(open)
  }

  /** None at the end of the input and where the decoder reports a syntax error. */
  function Next(d: Input): (r: Option<(Token, Input)>)
    ensures r.Some? ==> |r.value.1.tokens| < |d.tokens|
  {
    if d.tokens == [] || !Allowed(d.open, d.tokens[0]) then None
    else Some((d.tokens[0], Input(d.tokens[1..], Opened(d.open, d.tokens[0]))))
  }

  predicate More(d: Input) {
    d.tokens != [] && !d.tokens[0].Closes()
  }

  // ---------------------------------------------------------------------------
  // The walk
  // ---------------------------------------------------------------------------

  function Walk(d: Input): (r: Option<Input>)
    ensures r.Some? ==> |r.value.tokens| < |d.tokens|
    decreases |d.tokens|, 1
  {
    match Next(d)
    case None => None
    case Some((t, e)) =>
      match t
      case Null => None
      case OpenObject => WalkMembers(e, {})
      case OpenArray => WalkItems(e)
      case CloseObject => None
      case CloseArray => None
      case _ => Some(e)
  }

  function WalkMembers(d: Input, seen: set<string>): (r: Option<Input>)
    ensures r.Some? ==> |r.value.tokens| < |d.tokens|
    decreases |d.tokens|, 0
  {
    match Next(d)
    case None => None
    case Some((t, e)) =>
      if !More(d) then Some(e)
      else if !t.Text? || t.s in seen then None
      else match Walk(e)
        case None => None
        case Some(f) => WalkMembers(f, seen + {t.s})
  }

  function WalkItems(d: Input): (r: Option<Input>)
    ensures r.Some? ==> |r.value.tokens| < |d.tokens|
    decreases |d.tokens|, 2
  {
    if !More(d) then
      match Next(d)
      case None => None
      case Some((_, e)) => Some(e)
    else match Walk(d)
      case None => None
      case Some(e) => WalkItems(e)
  }

  class Decoder {
    var tokens: seq<Token>
    var open: seq<Place>
    /** Whether the input ends in something that is no token. */
    const broken: bool

    ghost function State(): Input
      reads this
    {
      Input(tokens, open)
    }

    constructor (tokens: seq<Token>, broken: bool)
      ensures State() == Input(tokens, []) && this.broken == broken
    {
      this.tokens, this.open, this.broken := tokens, [], broken;
    }

    method Token() returns (t: Option<Token>, eof: bool)
      modifies this
      ensures match Next(old(State()))
              case None => t == None && State() == old(State())
              case Some((u, e)) => t == Some(u) && State() == e
      ensures eof <==> old(tokens) == [] && !broken
    {
      if tokens == [] || !Allowed(open, tokens[0]) {
        return None, tokens == [] && !broken;
      }
      t := Some(tokens[0]);
      open := Opened(open, tokens[0]);
      tokens := tokens[1..];
      eof := false;
    }

    /** The recursive closure of lines 170-212. */
    method WalkValue() returns (ok: bool)
      modifies this
      ensures ok <==> Walk(old(State())).Some?
      ensures ok ==> State() == Walk(old(State())).value
      decreases |tokens|
    {
      ghost var start := State();
      var t, _ := Token();
      if t.None? || t.value.Null? {
        return false;
      }
      if t.value.Closes() {
        return false;
      }
      if t.value.OpenObject? {
        var seen := {};
        ghost var inside := State();
        while tokens != [] && !tokens[0].Closes()
          invariant WalkMembers(inside, {}) == WalkMembers(State(), seen)
          invariant |tokens| < |start.tokens|
          decreases |tokens|
        {
          var k, _ := Token();
          if k.None? || !k.value.Text? || k.value.s in seen {
            return false;
          }
          seen := seen + {k.value.s};
          ok := WalkValue();
          if !ok {
            return;
          }
        }
      } else if t.value.OpenArray? {
        ghost var inside := State();
        while tokens != [] && !tokens[0].Closes()
          invariant WalkItems(inside) == WalkItems(State())
          invariant |tokens| < |start.tokens|
          decreases |tokens|
        {
          ok := WalkValue();
          if !ok {
            return;
          }
        }
      } else {
        return true;
      }
      var close, _ := Token();
      ok := close.Some?;
    }
  }

  /** CheckJSON: accepts exactly the token streams of a clean value that end there. */
  method CheckJson(tokens: seq<Token>, broken: bool) returns (ok: bool)
    ensures ok <==> !broken && exists j :: IsJson(j) && Clean(j) && tokens == Tokens(j)
  {
    var d := new Decoder(tokens, broken);
    ok := d.WalkValue();
    AcceptedExactly(tokens);
    if ok {
      var _, eof := d.Token();
      ok := eof;
    }
  }

  // ---------------------------------------------------------------------------
  // Every value is walked over exactly
  // ---------------------------------------------------------------------------

  predicate WantsValue(open: seq<Place>) {
    open == [] || !open[0].AtKey?
  }

  lemma {:induction false} FirstToken(j: Json)
    requires IsJson(j)
    ensures Tokens(j) != [] && !Tokens(j)[0].Closes()
  {
  }

  /** The walk consumes exactly the value's tokens, and refuses exactly the unclean values. */
  lemma {:induction false} WalkOfTokens(j: Json, more: seq<Token>, open: seq<Place>)
    requires IsJson(j) && WantsValue(open)
    ensures Walk(Input(Tokens(j) + more, open)) == if Clean(j) then Some(Input(more, Valued(open))) else None
    decreases j, 1
  {
    hide WalkItems, WalkMembers, ItemTokens, MemberTokens, CleanItems, CleanMembers, Keys, Distinct, Unseen;
    match j
    case Leaf(t) =>
      assert (Tokens(j) + more)[1..] == more;
    case Array(items) =>
      ItemsOfTokens(items, more, open);
      OpenedAt(OpenArray, ItemTokens(items), CloseArray, more, open);
    case Object(members) =>
      MembersOfTokens(members, {}, more, open);
      UnseenIsDistinct(members, {});
      OpenedAt(OpenObject, MemberTokens(members), CloseObject, more, open);
  }

  /** Stepping over an opening bracket where a value may stand. */
  lemma OpenedAt(first: Token, inside: seq<Token>, last: Token, more: seq<Token>, open: seq<Place>)
    requires WantsValue(open) && (first.OpenArray? || first.OpenObject?)
    ensures var d := Input([first] + inside + [last] + more, open);
            Next(d) == Some((first, Input(inside + ([last] + more), [if first.OpenArray? then InArray else AtKey] + open)))
  {
    var tokens := [first] + inside + [last] + more;
    assert tokens[0] == first && tokens[1..] == inside + ([last] + more);
  }

  lemma {:induction false} ItemsOfTokens(items: Items, more: seq<Token>, open: seq<Place>)
    requires AreItems(items) && WantsValue(open)
    ensures WalkItems(Input(ItemTokens(items) + ([CloseArray] + more), [InArray] + open)) ==
              if CleanItems(items) then Some(Input(more, Valued(open))) else None
    decreases items, 0
  {
    var d := Input(ItemTokens(items) + ([CloseArray] + more), [InArray] + open);
    match items
    case NoItems =>
      assert d.tokens[1..] == more && d.open[1..] == open;
    case Item(head, tail) =>
      var after := ItemTokens(tail) + ([CloseArray] + more);
      assert d.tokens == Tokens(head) + after;
      FirstToken(head);
      WalkOfTokens(head, after, d.open);
      ItemsOfTokens(tail, more, open);
  }

  lemma {:induction false} MembersOfTokens(members: Members, seen: set<string>, more: seq<Token>, open: seq<Place>)
    requires AreMembers(members) && WantsValue(open)
    ensures WalkMembers(Input(MemberTokens(members) + ([CloseObject] + more), [AtKey] + open), seen) ==
              if Unseen(members, seen) && CleanMembers(members) then Some(Input(more, Valued(open))) else None
    decreases members, 0
  {
    hide Walk, Tokens, Clean, IsJson;
    var d := Input(MemberTokens(members) + ([CloseObject] + more), [AtKey] + open);
    match members
    case NoMembers =>
      assert d.tokens[1..] == more && d.open[1..] == open;
    case Member(key, value, rest) =>
      var after := MemberTokens(rest) + ([CloseObject] + more);
      assert d.tokens[1..] == Tokens(value) + after;
      var inside := [AtValue] + open;
      assert d.open[1..] == open && inside[1..] == open;
      WalkOfTokens(value, after, inside);
      assert Valued(inside) == d.open;
      MembersOfTokens(rest, seen + {key}, more, open);
  }

  // ---------------------------------------------------------------------------
  // Nothing else is accepted
  // ---------------------------------------------------------------------------

  /** Whatever the walk accepts are the tokens of a value. */
  lemma {:induction false} WalkedIsValue(d: Input) returns (j: Json)
    requires Walk(d).Some? && WantsValue(d.open)
    ensures IsJson(j) && d.tokens == Tokens(j) + Walk(d).value.tokens
    ensures Walk(d).value.open == Valued(d.open)
    decreases |d.tokens|, 1
  {
    var (t, e) := Next(d).value;
    assert d.tokens == [t] + e.tokens;
    hide WalkMembers, WalkItems, MemberTokens, ItemTokens, AreMembers, AreItems;
    match t
    case OpenObject =>
      var members := WalkedIsMembers(e, {});
      j := Object(members);
      assert e.open[1..] == d.open;
      Bracketed(t, MemberTokens(members), CloseObject, Walk(d).value.tokens);
    case OpenArray =>
      var items := WalkedIsItems(e);
      j := Array(items);
      assert e.open[1..] == d.open;
      Bracketed(t, ItemTokens(items), CloseArray, Walk(d).value.tokens);
    case _ =>
      j := Leaf(t);
  }

  lemma Bracketed(first: Token, inside: seq<Token>, last: Token, more: seq<Token>)
    ensures [first] + (inside + [last] + more) == [first] + inside + [last] + more
  {
  }

  lemma {:induction false} WalkedIsItems(d: Input) returns (items: Items)
    requires WalkItems(d).Some? && d.open != [] && d.open[0].InArray?
    ensures AreItems(items) && d.tokens == ItemTokens(items) + [CloseArray] + WalkItems(d).value.tokens
    ensures WalkItems(d).value.open == Valued(d.open[1..])
    decreases |d.tokens|, 2
  {
    if !More(d) {
      items := NoItems;
      assert d.tokens == [CloseArray] + WalkItems(d).value.tokens;
    } else {
      var head := WalkedIsValue(d);
      var tail := WalkedIsItems(Walk(d).value);
      items := Item(head, tail);
      assert d.tokens == Tokens(head) + ItemTokens(tail) + [CloseArray] + WalkItems(d).value.tokens;
    }
  }

  lemma {:induction false} WalkedIsMembers(d: Input, seen: set<string>) returns (members: Members)
    requires WalkMembers(d, seen).Some? && d.open != [] && d.open[0].AtKey?
    ensures AreMembers(members) && d.tokens == MemberTokens(members) + [CloseObject] + WalkMembers(d, seen).value.tokens
    ensures WalkMembers(d, seen).value.open == Valued(d.open[1..])
    decreases |d.tokens|, 0
  {
    var (t, e) := Next(d).value;
    assert d.tokens == [t] + e.tokens;
    if !More(d) {
      members := NoMembers;
    } else {
      var value := WalkedIsValue(e);
      var f := Walk(e).value;
      assert f.open == [AtKey] + d.open[1..];
      assert f.open[1..] == d.open[1..];
      hide Walk, Tokens, IsJson;
      var rest := WalkedIsMembers(f, seen + {t.s});
      members := Member(t.s, value, rest);
      InFront(t, Tokens(value), MemberTokens(rest), CloseObject, WalkMembers(d, seen).value.tokens);
    }
  }

  lemma InFront(key: Token, value: seq<Token>, rest: seq<Token>, last: Token, more: seq<Token>)
    ensures [key] + (value + (rest + [last] + more)) == [key] + value + rest + [last] + more
  {
  }

  /** The walk succeeds on the whole input exactly when the input is a clean value. */
  lemma AcceptedExactly(tokens: seq<Token>)
    ensures (exists j :: IsJson(j) && Clean(j) && tokens == Tokens(j)) <==> Walk(Input(tokens, [])) == Some(Input([], []))
    ensures Walk(Input(tokens, [])).Some? ==> Walk(Input(tokens, [])).value.open == []
  {
    hide Walk, Tokens, Clean, IsJson;
    if Walk(Input(tokens, [])).Some? {
      var j := WalkedIsValue(Input(tokens, []));
      var more := Walk(Input(tokens, [])).value.tokens;
      assert tokens == Tokens(j) + more;
      WalkOfTokens(j, more, []);
      assert more == [] ==> tokens == Tokens(j);
    }
    forall j | IsJson(j) && Clean(j) && tokens == Tokens(j)
      ensures Walk(Input(tokens, [])) == Some(Input([], []))
    {
      WalkOfTokens(j, [], []);
      assert tokens + [] == tokens;
    }
  }
}

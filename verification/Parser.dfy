/**
 * The recursive-descent parser (jansson-2.3/src/load.c:646-894), proved to compute JsonGrammar.ParseValue and
 * JsonGrammar.Load. Objects and arrays are built as maps and sequences, which is what the hash table and the
 * growing array are proved to be in HashTable.dfy and JsonArray.dfy.
 */
module Parsers {
  import opened Bytes
  import opened JsonValue
  import opened JsonPrint
  import opened Lexers
  import opened Streams
  import G = JsonGrammar

  type LoadFlags = G.LoadFlags

  /** `r` and the text left are what the grammar says for a token and the text behind it. */
  ghost predicate Agrees(r: Option<Json>, rest: bytes, p: G.Parsed) {
    match p
    case Failed => r == None
    case Parsed(v, s) => r == Some(v) && rest == s
  }

  ghost function Todo(lex: Lexer): nat
    requires lex.Valid()
    reads lex, lex.stream, lex.stream.buffer, lex.saved, lex.saved.value
  {
    if lex.token.Stops() then 0 else |lex.Rest()| + 1
  }

  // What the grammar says at each turn of a loop.

  lemma ArrayHead(s: bytes, broken: bool, flags: LoadFlags)
    ensures var t := G.Lex(s, broken);
      G.ParseValue(G.Punct(LBRACKET), s, broken, flags) ==
        if t.token == G.Punct(RBRACKET) then G.Parsed(JArray([]), t.rest)
        else if t.token.Stops() then G.Failed
        else G.ParseItems(t.token, t.rest, broken, flags, [])
  {
  }

  lemma ItemsTurn(tok: G.Token, s: bytes, broken: bool, flags: LoadFlags, acc: seq<Json>)
    ensures var p := G.ParseValue(tok, s, broken, flags);
      p == G.Failed ==> G.ParseItems(tok, s, broken, flags, acc) == G.Failed
    ensures var p := G.ParseValue(tok, s, broken, flags);
      p.Parsed? ==>
        var t := G.Lex(p.rest, broken);
        var u := G.Lex(t.rest, broken);
        G.ParseItems(tok, s, broken, flags, acc) ==
          if t.token == G.Punct(COMMA) then
            if u.token.Stops() then G.Failed else G.ParseItems(u.token, u.rest, broken, flags, acc + [p.value])
          else if t.token == G.Punct(RBRACKET) then G.Parsed(JArray(acc + [p.value]), t.rest)
          else G.Failed
  {
  }

  lemma ObjectHead(s: bytes, broken: bool, flags: LoadFlags)
    ensures var t := G.Lex(s, broken);
      G.ParseValue(G.Punct(LBRACE), s, broken, flags) ==
        if t.token == G.Punct(RBRACE) then G.Parsed(JObject(map[]), t.rest)
        else if t.token.Stops() then G.Failed
        else G.ParseMembers(t.token, t.rest, broken, flags, map[])
  {
  }

  lemma MembersTurn(tok: G.Token, s: bytes, broken: bool, flags: LoadFlags, acc: map<bytes, Json>)
    ensures !tok.Str? || (flags.rejectDuplicates && tok.s in acc) || G.Lex(s, broken).token != G.Punct(COLON) ==>
      G.ParseMembers(tok, s, broken, flags, acc) == G.Failed
    ensures tok.Str? && !(flags.rejectDuplicates && tok.s in acc) && G.Lex(s, broken).token == G.Punct(COLON) ==>
      var first := G.Lex(G.Lex(s, broken).rest, broken);
      var p := G.ParseValue(first.token, first.rest, broken, flags);
      G.ParseMembers(tok, s, broken, flags, acc) ==
        if p == G.Failed then G.Failed
        else
          var t := G.Lex(p.rest, broken);
          var u := G.Lex(t.rest, broken);
          if t.token == G.Punct(COMMA) then
            if u.token.Stops() then G.Failed else G.ParseMembers(u.token, u.rest, broken, flags, acc[tok.s := p.value])
          else if t.token == G.Punct(RBRACE) then G.Parsed(JObject(acc[tok.s := p.value]), t.rest)
          else G.Failed
  {
  }

  lemma StopsFail(tok: G.Token, s: bytes, broken: bool, flags: LoadFlags)
    ensures tok.Stops() ==> G.ParseValue(tok, s, broken, flags) == G.Failed
  {
  }

  method ParseValue(lex: Lexer, flags: LoadFlags) returns (r: Option<Json>)
    requires lex.Valid()
    modifies lex`token, lex.stream, lex.stream.buffer, lex.saved, lex.saved.value
    ensures lex.Valid() && (lex.saved.value == old(lex.saved.value) || fresh(lex.saved.value))
    ensures Agrees(r, lex.Rest(), G.ParseValue(old(lex.token), old(lex.Rest()), lex.stream.Broken(), flags))
    decreases Todo(lex), 1
  {
    hide G.Lex, G.ParseItems, G.ParseMembers, Lexer.Valid;
    match lex.token
    case Str(s) => r := Some(JText(s));
    case Int(i) => r := Some(JInt(i));
    case Real(l) => r := Some(JReal(l));
    case KwTrue => r := Some(JTrue);
    case KwFalse => r := Some(JFalse);
    case KwNull => r := Some(JNull);
    case Punct(c) =>
      if c == LBRACE {
        r := ParseObject(lex, flags);
      } else if c == LBRACKET {
        r := ParseArray(lex, flags);
      } else {
        r := None;
      }
    case _ => r := None;
  }

  /** What the grammar makes of the elements that follow those in `acc`. */
  ghost function ItemsGoal(lex: Lexer, flags: LoadFlags, acc: seq<Json>): G.Parsed
    requires lex.Valid()
    reads lex, lex.stream, lex.stream.buffer, lex.saved, lex.saved.value
  {
    if lex.token.Stops() then G.Failed else G.ParseItems(lex.token, lex.Rest(), lex.stream.Broken(), flags, acc)
  }

  ghost function MembersGoal(lex: Lexer, flags: LoadFlags, acc: map<bytes, Json>): G.Parsed
    requires lex.Valid()
    reads lex, lex.stream, lex.stream.buffer, lex.saved, lex.saved.value
  {
    if lex.token.Stops() then G.Failed else G.ParseMembers(lex.token, lex.Rest(), lex.stream.Broken(), flags, acc)
  }

  /** How one turn of a parser loop ends: a comma follows, something else follows, or the value was malformed. */
  datatype Turn = More | Last | Fail

  method ParseArray(lex: Lexer, flags: LoadFlags) returns (r: Option<Json>)
    requires lex.Valid() && lex.token == G.Punct(LBRACKET)
    modifies lex`token, lex.stream, lex.stream.buffer, lex.saved, lex.saved.value
    ensures lex.Valid() && (lex.saved.value == old(lex.saved.value) || fresh(lex.saved.value))
    ensures Agrees(r, lex.Rest(), G.ParseValue(G.Punct(LBRACKET), old(lex.Rest()), lex.stream.Broken(), flags))
    decreases Todo(lex), 0
  {
    hide G.Lex, G.ParseValue, G.ParseItems, Lexer.Valid;
    ArrayHead(lex.Rest(), lex.stream.Broken(), flags);
    ghost var goal := G.ParseValue(G.Punct(LBRACKET), lex.Rest(), lex.stream.Broken(), flags);
    var items: seq<Json> := [];
    lex.Next();
    if lex.token == G.Punct(RBRACKET) {
      return Some(JArray(items));
    }
    var turn := More;
    while turn == More && lex.token != G.EndOfFile
      invariant lex.Valid() && (lex.saved.value == old(lex.saved.value) || fresh(lex.saved.value))
      invariant turn != Fail
      invariant turn == More ==> Todo(lex) < old(Todo(lex)) && goal == ItemsGoal(lex, flags, items)
      invariant turn == Last ==> Closes(lex, G.Punct(RBRACKET), JArray(items), goal)
      decreases turn == More, Todo(lex)
    {
      turn, items := ParseElement(lex, flags, items);
      if turn == Fail {
        return None;
      }
    }
    if lex.token != G.Punct(RBRACKET) {
      return None;
    }
    return Some(JArray(items));
  }

  /** Behind the last element: the closing bracket has been read, or the text is malformed. */
  ghost predicate Closes(lex: Lexer, bracket: G.Token, v: Json, goal: G.Parsed)
    requires lex.Valid()
    reads lex, lex.stream, lex.stream.buffer, lex.saved, lex.saved.value
  {
    if lex.token == bracket then goal == G.Parsed(v, lex.Rest()) else goal == G.Failed
  }

  /** One turn of the loop of parse_array. */
  method ParseElement(lex: Lexer, flags: LoadFlags, items: seq<Json>) returns (turn: Turn, items': seq<Json>)
    requires lex.Valid()
    modifies lex`token, lex.stream, lex.stream.buffer, lex.saved, lex.saved.value
    ensures lex.Valid() && (lex.saved.value == old(lex.saved.value) || fresh(lex.saved.value))
    ensures turn == More ==>
      Todo(lex) < old(Todo(lex)) && ItemsGoal(lex, flags, items') == old(ItemsGoal(lex, flags, items))
    ensures turn == Last ==> Closes(lex, G.Punct(RBRACKET), JArray(items'), old(ItemsGoal(lex, flags, items)))
    ensures turn == Fail ==> old(ItemsGoal(lex, flags, items)) == G.Failed
    decreases Todo(lex), 2
  {
    hide G.Lex, G.ParseValue, G.ParseItems, Lexer.Valid;
    ItemsTurn(lex.token, lex.Rest(), lex.stream.Broken(), flags, items);
    StopsFail(lex.token, lex.Rest(), lex.stream.Broken(), flags);
    items' := items;
    var elem := ParseValue(lex, flags);
    if elem == None {
      return Fail, items';
    }
    items' := items + [elem.value];
    lex.Next();
    if lex.token != G.Punct(COMMA) {
      return Last, items';
    }
    lex.Next();
    return More, items';
  }

  method ParseObject(lex: Lexer, flags: LoadFlags) returns (r: Option<Json>)
    requires lex.Valid() && lex.token == G.Punct(LBRACE)
    modifies lex`token, lex.stream, lex.stream.buffer, lex.saved, lex.saved.value
    ensures lex.Valid() && (lex.saved.value == old(lex.saved.value) || fresh(lex.saved.value))
    ensures Agrees(r, lex.Rest(), G.ParseValue(G.Punct(LBRACE), old(lex.Rest()), lex.stream.Broken(), flags))
    decreases Todo(lex), 0
  {
    hide G.Lex, G.ParseValue, G.ParseMembers, Lexer.Valid;
    ObjectHead(lex.Rest(), lex.stream.Broken(), flags);
    ghost var goal := G.ParseValue(G.Punct(LBRACE), lex.Rest(), lex.stream.Broken(), flags);
    var members: map<bytes, Json> := map[];
    lex.Next();
    if lex.token == G.Punct(RBRACE) {
      return Some(JObject(members));
    }
    var turn := More;
    while turn == More
      invariant lex.Valid() && (lex.saved.value == old(lex.saved.value) || fresh(lex.saved.value))
      invariant turn != Fail
      invariant turn == More ==> Todo(lex) < old(Todo(lex)) && goal == MembersGoal(lex, flags, members)
      invariant turn == Last ==> Closes(lex, G.Punct(RBRACE), JObject(members), goal)
      decreases turn == More, Todo(lex)
    {
      turn, members := ParseMember(lex, flags, members);
      if turn == Fail {
        return None;
      }
    }
    if lex.token != G.Punct(RBRACE) {
      return None;
    }
    return Some(JObject(members));
  }

  /** One turn of the loop of parse_object. */
  method ParseMember(lex: Lexer, flags: LoadFlags, members: map<bytes, Json>)
    returns (turn: Turn, members': map<bytes, Json>)
    requires lex.Valid()
    modifies lex`token, lex.stream, lex.stream.buffer, lex.saved, lex.saved.value
    ensures lex.Valid() && (lex.saved.value == old(lex.saved.value) || fresh(lex.saved.value))
    ensures turn == More ==>
      Todo(lex) < old(Todo(lex)) && MembersGoal(lex, flags, members') == old(MembersGoal(lex, flags, members))
    ensures turn == Last ==> Closes(lex, G.Punct(RBRACE), JObject(members'), old(MembersGoal(lex, flags, members)))
    ensures turn == Fail ==> old(MembersGoal(lex, flags, members)) == G.Failed
    decreases Todo(lex), 2
  {
    hide G.Lex, G.ParseValue, G.ParseMembers, Lexer.Valid;
    members' := members;
    ghost var broken := lex.stream.Broken();
    MembersTurn(lex.token, lex.Rest(), broken, flags, members);
    if !lex.token.Str? {
      return Fail, members';
    }
    var key := lex.token.s;
    if flags.rejectDuplicates {
      if key in members {
        return Fail, members';
      }
    }
    var value := ParseMemberValue(lex, flags);
    if value == None {
      return Fail, members';
    }
    members' := members[key := value.value];
    lex.Next();
    if lex.token != G.Punct(COMMA) {
      return Last, members';
    }
    lex.Next();
    return More, members';
  }

  /** The colon behind a key, and the value behind the colon. */
  method ParseMemberValue(lex: Lexer, flags: LoadFlags) returns (r: Option<Json>)
    requires lex.Valid() && !lex.token.Stops()
    modifies lex`token, lex.stream, lex.stream.buffer, lex.saved, lex.saved.value
    ensures lex.Valid() && (lex.saved.value == old(lex.saved.value) || fresh(lex.saved.value))
    ensures var colon := G.Lex(old(lex.Rest()), lex.stream.Broken());
      if colon.token != G.Punct(COLON) then r == None
      else
        var first := G.Lex(colon.rest, lex.stream.Broken());
        Agrees(r, lex.Rest(), G.ParseValue(first.token, first.rest, lex.stream.Broken(), flags))
    ensures r.Some? ==> Todo(lex) < old(Todo(lex))
    decreases Todo(lex), 1
  {
    hide G.Lex, G.ParseValue, Lexer.Valid;
    lex.Next();
    if lex.token != G.Punct(COLON) {
      return None;
    }
    ghost var first := G.Lex(lex.Rest(), lex.stream.Broken());
    lex.Next();
    StopsFail(lex.token, lex.Rest(), lex.stream.Broken(), flags);
    StopsFail(lex.token, first.rest, lex.stream.Broken(), flags);
    r := ParseValue(lex, flags);
  }

  /** parse_json and json_loads. */
  method Loads(text: bytes, flags: LoadFlags) returns (r: Option<Json>)
    requires NulFree(text) && |text| <= INPUT_MAX
    ensures r == G.Load(text, flags)
  {
    hide G.Lex, G.ParseValue, Lexer.Valid;
    var lex := new Lexer(text);
    StartOfText(lex);
    lex.Next();
    if !flags.decodeAny {
      if lex.token != G.Punct(LBRACKET) && lex.token != G.Punct(LBRACE) {
        return None;
      }
    }
    StopsFail(lex.token, lex.Rest(), lex.stream.Broken(), flags);
    StopsFail(lex.token, G.Lex(lex.stream.Text(), lex.stream.Broken()).rest, lex.stream.Broken(), flags);
    r := ParseValue(lex, flags);
    if r == None {
      return None;
    }
    if !flags.disableEofCheck {
      lex.Next();
      if lex.token != G.EndOfFile {
        return None;
      }
    }
  }

  lemma StartOfText(lex: Lexer)
    requires lex.Valid() && lex.stream.position == 0
    ensures lex.Rest() == lex.stream.Text() && lex.stream.Broken() == (lex.stream.Text() != lex.stream.data)
  {
  }
}

/** The streaming JSON writer of `lib/json_writer.c` at the level of tokens, the documents it can
    produce, and a reader for them. Layout characters are left out. */
module JsonWriter {
  import opened Wrappers

  datatype Scalar = Text(text: string) | Number(number: nat)

  datatype Token = OpenObject | CloseObject | OpenArray | CloseArray | Comma | Key(name: string) | Value(scalar: Scalar)

  /** A document, section 2 of RFC 8259. */
  datatype Json = Leaf(scalar: Scalar) | Object(members: seq<Member>) | Array(items: seq<Json>)

  datatype Member = Member(name: string, value: Json)

  // ---------------------------------------------------------------- documents as tokens

  function Separator(sep: bool): seq<Token> {
    if sep then [Comma] else []
  }

  function Tokens(j: Json): (r: seq<Token>)
    ensures r != []
    decreases j, 0
  {
    match j
    case Leaf(s) => [Value(s)]
    case Object(ms) => [OpenObject] + MemberTokens(false, ms) + [CloseObject]
    case Array(js) => [OpenArray] + ItemTokens(false, js) + [CloseArray]
  }

  /** Members of an object; `sep` says that something stands before them. */
  function MemberTokens(sep: bool, ms: seq<Member>): seq<Token>
    decreases ms, 0
  {
    if ms == [] then []
    else Separator(sep) + [Key(ms[0].name)] + Tokens(ms[0].value) + MemberTokens(true, ms[1..])
  }

  function ItemTokens(sep: bool, js: seq<Json>): seq<Token>
    decreases js, 0
  {
    if js == [] then [] else Separator(sep) + Tokens(js[0]) + ItemTokens(true, js[1..])
  }

  lemma {:induction false} MembersConcat(sep: bool, ms: seq<Member>, ns: seq<Member>)
    ensures MemberTokens(sep, ms + ns) == MemberTokens(sep, ms) + MemberTokens(sep || ms != [], ns)
    decreases |ms|
  {
    if ms == [] {
      assert ms + ns == ns;
    } else {
      MembersConcat(true, ms[1..], ns);
      assert (ms + ns)[1..] == ms[1..] + ns;
    }
  }

  lemma {:induction false} ItemsConcat(sep: bool, js: seq<Json>, ks: seq<Json>)
    ensures ItemTokens(sep, js + ks) == ItemTokens(sep, js) + ItemTokens(sep || js != [], ks)
    decreases |js|
  {
    if js == [] {
      assert js + ks == ks;
    } else {
      ItemsConcat(true, js[1..], ks);
      assert (js + ks)[1..] == js[1..] + ks;
    }
  }

  lemma OneMember(sep: bool, m: Member)
    ensures MemberTokens(sep, [m]) == Separator(sep) + [Key(m.name)] + Tokens(m.value)
  {
    hide Tokens;
  }

  lemma OneItem(sep: bool, j: Json)
    ensures ItemTokens(sep, [j]) == Separator(sep) + Tokens(j)
  {
    hide Tokens;
  }

  // ---------------------------------------------------------------- a reader

  datatype Read<+T> = Fail | Got(value: T, rest: seq<Token>)

  function ReadValue(ts: seq<Token>): (r: Read<Json>)
    ensures r.Got? ==> |r.rest| < |ts|
    decreases |ts|, 0
  {
    if ts == [] then Fail
    else
      match ts[0]
      case Value(s) => Got(Leaf(s), ts[1..])
      case OpenObject =>
        var r := ReadMembers(false, ts[1..]);
        if r.Fail? then Fail else Got(Object(r.value), r.rest)
      case OpenArray =>
        var r := ReadItems(false, ts[1..]);
        if r.Fail? then Fail else Got(Array(r.value), r.rest)
      case _ => Fail
  }

  /** Members up to the closing brace; `sep` says that a comma must come first. */
  function ReadMembers(sep: bool, ts: seq<Token>): (r: Read<seq<Member>>)
    ensures r.Got? ==> |r.rest| < |ts|
    decreases |ts|, 1
  {
    if ts == [] then Fail
    else if ts[0] == CloseObject then Got([], ts[1..])
    else if sep && ts[0] != Comma then Fail
    else
      var us := if sep then ts[1..] else ts;
      if us == [] || !us[0].Key? then Fail
      else
        var v := ReadValue(us[1..]);
        if v.Fail? then Fail
        else
          var more := ReadMembers(true, v.rest);
          if more.Fail? then Fail else Got([Member(us[0].name, v.value)] + more.value, more.rest)
  }

  function ReadItems(sep: bool, ts: seq<Token>): (r: Read<seq<Json>>)
    ensures r.Got? ==> |r.rest| < |ts|
    decreases |ts|, 1
  {
    if ts == [] then Fail
    else if ts[0] == CloseArray then Got([], ts[1..])
    else if sep && ts[0] != Comma then Fail
    else
      var v := ReadValue(if sep then ts[1..] else ts);
      if v.Fail? then Fail
      else
        var more := ReadItems(true, v.rest);
        if more.Fail? then Fail else Got([v.value] + more.value, more.rest)
  }

  /** A whole document and nothing after it. */
  function Parse(ts: seq<Token>): Option<Json> {
    var r := ReadValue(ts);
    if r.Got? && r.rest == [] then Some(r.value) else None
  }

  lemma {:induction false} ReadsValue(j: Json, rest: seq<Token>)
    ensures ReadValue(Tokens(j) + rest) == Got(j, rest)
    decreases j, 0
  {
    hide MemberTokens, ItemTokens, ReadMembers, ReadItems;
    var ts := Tokens(j) + rest;
    match j
    case Leaf(s) =>
      assert ts[1..] == rest;
    case Object(ms) =>
      assert ts[1..] == MemberTokens(false, ms) + [CloseObject] + rest;
      ReadsMembers(false, ms, rest);
    case Array(js) =>
      assert ts[1..] == ItemTokens(false, js) + [CloseArray] + rest;
      ReadsItems(false, js, rest);
  }

  lemma {:induction false} ReadsMembers(sep: bool, ms: seq<Member>, rest: seq<Token>)
    ensures ReadMembers(sep, MemberTokens(sep, ms) + [CloseObject] + rest) == Got(ms, rest)
    decreases ms, 0
  {
    hide Tokens, ReadValue, ReadMembers;
    var ts := MemberTokens(sep, ms) + [CloseObject] + rest;
    if ms == [] {
      assert ts == [CloseObject] + rest;
      ReadsClose(sep, rest);
    } else {
      var after := MemberTokens(true, ms[1..]) + [CloseObject] + rest;
      assert ts == Separator(sep) + ([Key(ms[0].name)] + (Tokens(ms[0].value) + after));
      ReadsValue(ms[0].value, after);
      ReadsMembers(true, ms[1..], rest);
      ReadsOne(sep, ms[0].name, Tokens(ms[0].value) + after);
      assert [Member(ms[0].name, ms[0].value)] + ms[1..] == ms;
    }
  }

  lemma ReadsClose(sep: bool, rest: seq<Token>)
    ensures ReadMembers(sep, [CloseObject] + rest) == Got([], rest)
  {
  }

  lemma ReadsOne(sep: bool, name: string, ts: seq<Token>)
    requires ReadValue(ts).Got? && ReadMembers(true, ReadValue(ts).rest).Got?
    ensures var v := ReadValue(ts);
            var more := ReadMembers(true, v.rest);
            ReadMembers(sep, Separator(sep) + ([Key(name)] + ts))
              == Got([Member(name, v.value)] + more.value, more.rest)
  {
    hide ReadValue;
    var us := [Key(name)] + ts;
    assert us[1..] == ts;
    assert sep ==> (Separator(sep) + us)[1..] == us;
    assert !sep ==> Separator(sep) + us == us;
  }

  lemma {:induction false} ReadsItems(sep: bool, js: seq<Json>, rest: seq<Token>)
    ensures ReadItems(sep, ItemTokens(sep, js) + [CloseArray] + rest) == Got(js, rest)
    decreases js, 0
  {
    hide Tokens, ReadValue;
    var ts := ItemTokens(sep, js) + [CloseArray] + rest;
    if js == [] {
      assert ts[1..] == rest;
    } else {
      var after := ItemTokens(true, js[1..]) + [CloseArray] + rest;
      var us := Tokens(js[0]) + after;
      assert ts == Separator(sep) + us;
      assert sep ==> ts[0] == Comma && ts[1..] == us;
      assert !sep ==> ts == us;
      ReadsValue(js[0], after);
      ReadsItems(true, js[1..], rest);
      FirstToken(js[0]);
      assert us[0] == Tokens(js[0])[0];
      assert [js[0]] + js[1..] == js;
    }
  }

  lemma FirstToken(j: Json)
    ensures Tokens(j)[0] != CloseArray
  {
  }

  /** What is written for a document reads back as the document. */
  lemma ParseWritten(j: Json)
    ensures Parse(Tokens(j)) == Some(j)
  {
    ReadsValue(j, []);
    assert Tokens(j) + [] == Tokens(j);
  }

  // ---------------------------------------------------------------- struct json_writer

  /** The writer: what went out, how deep it is nested, and whether a comma is due. */
  class Writer {
    var out: seq<Token>
    var depth: nat
    var sep: bool

    constructor ()
      ensures out == [] && depth == 0 && !sep
    {
      out, depth, sep := [], 0, false;
    }

    /** `jsonw_eor`. */
    method Eor()
      modifies this
      ensures out == old(out) + Separator(old(sep)) && sep && depth == old(depth)
    {
      if sep {
        out := out + [Comma];
      }
      sep := true;
    }

    /** `jsonw_begin`. */
    method Begin(t: Token)
      modifies this
      ensures out == old(out) + Separator(old(sep)) + [t] && !sep && depth == old(depth) + 1
    {
      Eor();
      out := out + [t];
      depth := depth + 1;
      sep := false;
    }

    /** `jsonw_end`, which asserts that something is open. */
    method End(t: Token)
      requires depth > 0
      modifies this
      ensures out == old(out) + [t] && sep && depth == old(depth) - 1
    {
      depth := depth - 1;
      out := out + [t];
      sep := true;
    }

    /** `jsonw_name`. */
    method Name(name: string)
      modifies this
      ensures out == old(out) + Separator(old(sep)) + [Key(name)] && !sep && depth == old(depth)
    {
      Eor();
      sep := false;
      out := out + [Key(name)];
    }

    /** `jsonw_string`, `jsonw_uint`. */
    method Put(s: Scalar)
      modifies this
      ensures out == old(out) + Separator(old(sep)) + [Value(s)] && sep && depth == old(depth)
    {
      Eor();
      out := out + [Value(s)];
    }

    /** `jsonw_string_field`, `jsonw_uint_field`. */
    method Field(name: string, s: Scalar)
      modifies this
      ensures out == old(out) + MemberTokens(old(sep), [Member(name, Leaf(s))]) && sep && depth == old(depth)
    {
      OneMember(sep, Member(name, Leaf(s)));
      Name(name);
      Put(s);
    }
  }
}

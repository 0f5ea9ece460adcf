/** Strings of the JSON writer: `jsonw_puts` against section 7 of RFC 8259. */
module JsonStrings {
  import opened Wrappers

  const FORM_FEED: char := 12 as char
  const BACKSPACE: char := 8 as char

  /** What is put for one character: the backslash comes out as a newline escape, and the
      apostrophe with an escape that JSON does not have. */
  function Escape(c: char): string {
    if c == '\t' then "\\t"
    else if c == '\n' then "\\n"
    else if c == '\r' then "\\r"
    else if c == FORM_FEED then "\\f"
    else if c == BACKSPACE then "\\b"
    else if c == '\\' then "\\n"
    else if c == '\"' then "\\\""
    else if c == '\'' then "\\\'"
    else [c]
  }

  function Escaped(s: string): string {
    if s == "" then "" else Escaped(s[..|s| - 1]) + Escape(s[|s| - 1])
  }

  /** `jsonw_puts`. */
  method Puts(s: string) returns (out: string)
    ensures out == "\"" + Escaped(s) + "\""
  {
    out := "\"";
    for i := 0 to |s|
      invariant out == "\"" + Escaped(s[..i])
    {
      assert s[..i + 1][..i] == s[..i];
      out := out + Escape(s[i]);
    }
    assert s[..|s|] == s;
    out := out + "\"";
  }

  // ---------------------------------------------------------------- a reader

  /** The character behind a backslash. The form with four hexadecimal digits is never put. */
  function Unescape(c: char): Option<char> {
    if c == '\"' || c == '\\' || c == '/' then Some(c)
    else if c == 'b' then Some(BACKSPACE)
    else if c == 'f' then Some(FORM_FEED)
    else if c == 'n' then Some('\n')
    else if c == 'r' then Some('\r')
    else if c == 't' then Some('\t')
    else None
  }

  function ReadChars(t: string): Option<string> {
    if t == "" then None
    else if t[0] == '\"' then (if |t| == 1 then Some("") else None)
    else if t[0] == '\\' then
      if |t| == 1 || Unescape(t[1]).None? then None else Cons(Unescape(t[1]).value, ReadChars(t[2..]))
    else if t[0] < ' ' then None
    else Cons(t[0], ReadChars(t[1..]))
  }

  function Cons(c: char, r: Option<string>): Option<string> {
    if r.None? then None else Some([c] + r.value)
  }

  /** A string literal with its quotes, and nothing after it. */
  function ReadString(t: string): Option<string> {
    if t == "" || t[0] != '\"' then None else ReadChars(t[1..])
  }

  /** Put in a form that is not JSON: the apostrophe, and control characters without an escape. */
  predicate Unreadable(c: char) {
    c == '\'' || (c < ' ' && c != '\t' && c != '\n' && c != '\r' && c != FORM_FEED && c != BACKSPACE)
  }

  function Meant(c: char): char {
    if c == '\\' then '\n' else c
  }

  lemma ReadsOne(c: char, t: string)
    ensures ReadChars(Escape(c) + t) == if Unreadable(c) then None else Cons(Meant(c), ReadChars(t))
  {
    var e := Escape(c);
    assert |e| == 1 || |e| == 2;
    assert |e| == 1 ==> (e + t)[1..] == t;
    assert |e| == 2 ==> (e + t)[2..] == t;
  }

  ghost predicate Readable(s: string) {
    forall i :: 0 <= i < |s| ==> !Unreadable(s[i])
  }

  ghost function MeantAll(s: string): string {
    seq(|s|, i requires 0 <= i < |s| => Meant(s[i]))
  }

  lemma {:induction false} EscapedFirst(s: string)
    requires s != ""
    ensures Escaped(s) == Escape(s[0]) + Escaped(s[1..])
  {
    hide Escape;
    if |s| > 1 {
      EscapedFirst(s[..|s| - 1]);
      assert s[..|s| - 1][1..] == s[1..][..|s| - 2];
    }
  }

  lemma {:induction false} ReadsAll(s: string)
    ensures ReadChars(Escaped(s) + "\"") == if Readable(s) then Some(MeantAll(s)) else None
  {
    hide ReadChars, Escape, Unreadable, Meant;
    if s == "" {
      ReadsEnd();
      assert MeantAll(s) == "";
      assert Escaped(s) + "\"" == "\"";
    } else {
      EscapedFirst(s);
      ReadsAll(s[1..]);
      ReadsOne(s[0], Escaped(s[1..]) + "\"");
      assert Escaped(s) + "\"" == Escape(s[0]) + (Escaped(s[1..]) + "\"");
      assert Readable(s) <==> !Unreadable(s[0]) && Readable(s[1..]) by {
        assert forall i :: 0 < i < |s| ==> s[i] == s[1..][i - 1];
      }
      assert MeantAll(s) == [Meant(s[0])] + MeantAll(s[1..]);
    }
  }

  lemma ReadsEnd()
    ensures ReadChars("\"") == Some("")
  {
  }

  /** What `jsonw_puts` puts is a string literal for `s` exactly when `s` has no backslash, no
      apostrophe and no control character without an escape of its own. */
  lemma PutsReadsBack(s: string)
    ensures ReadString("\"" + Escaped(s) + "\"") == Some(s)
            <==> forall i :: 0 <= i < |s| ==> s[i] != '\\' && !Unreadable(s[i])
  {
    hide ReadChars, Escaped, Unreadable;
    var t := "\"" + Escaped(s) + "\"";
    assert t[1..] == Escaped(s) + "\"";
    ReadsAll(s);
    if MeantAll(s) == s {
      forall i | 0 <= i < |s| ensures s[i] != '\\' {
        assert MeantAll(s)[i] == s[i];
      }
    }
    if forall i :: 0 <= i < |s| ==> s[i] != '\\' && !Unreadable(s[i]) {
      assert MeantAll(s) == s;
    }
  }

  /** A backslash is read back as a newline, and an apostrophe not at all. */
  lemma BackslashAndApostrophe()
    ensures ReadString("\"" + Escaped("\\") + "\"") == Some("\n")
    ensures ReadString("\"" + Escaped("\'") + "\"") == None
  {
    hide ReadChars;
    ReadsAll("\\");
    ReadsAll("\'");
    assert MeantAll("\\") == "\n";
    assert "\'"[0] == '\'';
    assert ("\"" + Escaped("\\") + "\"")[1..] == Escaped("\\") + "\"";
    assert ("\"" + Escaped("\'") + "\"")[1..] == Escaped("\'") + "\"";
  }

  // ---------------------------------------------------------------- different strings, different literals

  lemma EscapeTells(c: char, d: char, s: string, t: string)
    requires Escape(c) + s == Escape(d) + t
    ensures Meant(c) == Meant(d) && s == t
  {
    var u, v := Escape(c), Escape(d);
    assert (u + s)[0] == u[0] && (v + t)[0] == v[0];
    assert |u| == |v|;
    assert |u| == 2 ==> (u + s)[1] == u[1] && (v + t)[1] == v[1];
    assert s == (u + s)[|u|..] && t == (v + t)[|v|..];
  }

  /** Two strings come out as the same literal exactly when they differ at most in having a backslash
      where the other has a newline. */
  lemma {:induction false} LiteralTells(s: string, t: string)
    ensures Escaped(s) == Escaped(t) <==> MeantAll(s) == MeantAll(t)
    decreases |s|
  {
    hide Escape, Meant, Escaped;
    EscapedNothing();
    if s == "" || t == "" {
      assert MeantAll(s) == MeantAll(t) ==> |s| == |t|;
      if s != "" {
        EscapedNonempty(s);
      }
      if t != "" {
        EscapedNonempty(t);
      }
    } else {
      EscapedFirst(s);
      EscapedFirst(t);
      LiteralTells(s[1..], t[1..]);
      assert MeantAll(s) == [Meant(s[0])] + MeantAll(s[1..]) && MeantAll(t) == [Meant(t[0])] + MeantAll(t[1..]);
      if Escaped(s) == Escaped(t) {
        EscapeTells(s[0], t[0], Escaped(s[1..]), Escaped(t[1..]));
      }
      if MeantAll(s) == MeantAll(t) {
        assert MeantAll(s)[0] == MeantAll(t)[0] && MeantAll(s)[1..] == MeantAll(t)[1..];
        SameMeaning(s[0], t[0]);
      }
    }
  }

  lemma SameMeaning(c: char, d: char)
    requires Meant(c) == Meant(d)
    ensures Escape(c) == Escape(d)
  {
  }

  lemma EscapedNothing()
    ensures Escaped("") == ""
  {
  }

  lemma EscapedNonempty(s: string)
    requires s != ""
    ensures Escaped(s) != ""
  {
  }
}

/** Escaping by chains of `str.replace`, and the readers that undo it. A chain that doubles backslashes first is
    shown to be a per-character encoding of the text with its line breaks normalised. */
module SiemEscape {
  /** `s.replace(pat, rep)`: leftmost, non-overlapping. */
  function Replace(s: string, pat: string, rep: string): string
    requires pat != ""
    decreases |s|
  {
    if |s| < |pat| then s
    else if s[..|pat|] == pat then rep + Replace(s[|pat|..], pat, rep)
    else [s[0]] + Replace(s[1..], pat, rep)
  }

  /** `.replace("\r\n", nl).replace("\n", nl).replace("\r", nl)`. */
  function Newlines(s: string, nl: string): string
  {
    Replace(Replace(Replace(s, "\r\n", nl), "\n", nl), "\r", nl)
  }

  /** `.replace(c, "\\" + c)` for each of the characters in turn. */
  function ReplaceEach(s: string, cs: string): string
    decreases |cs|
  {
    if cs == "" then s else ReplaceEach(Replace(s, [cs[0]], ['\\', cs[0]]), cs[1..])
  }

  /** The shape of all three escape functions: escape the specials, then write line breaks as backslash-n. */
  function Escape(s: string, cs: string): string { Newlines(ReplaceEach(s, cs), "\\n") }

  const HEADER := "\\|"
  const EXTENSION := "\\=|"
  const SD_VALUE := "\\\"]"

  function EscapeCefHeaderField(s: string): string { Escape(s, HEADER) }

  function EscapeCefExtensionValue(s: string): string { Escape(s, EXTENSION) }

  function EscapeSdValue(s: string): string { Escape(s, SD_VALUE) }

  // ------------------------------------------------------------------ what the chains mean

  predicate IsBreak(c: char) { c == '\n' || c == '\r' }

  predicate OneLine(s: string) { forall i :: 0 <= i < |s| ==> !IsBreak(s[i]) }

  /** Every line break, also a carriage return with its line feed, as one line feed. */
  function Norm(s: string): string
  {
    if s == "" then ""
    else if |s| >= 2 && s[0] == '\r' && s[1] == '\n' then "\n" + Norm(s[2..])
    else (if IsBreak(s[0]) then "\n" else [s[0]]) + Norm(s[1..])
  }

  function EncodeChar(c: char, cs: string): string
  {
    if c == '\n' then "\\n" else if c in cs then ['\\', c] else [c]
  }

  /** What one character is written as: a backslash before the backslash and before what would end a field, a value or
      a quoted parameter, and two characters for a line feed. */
  lemma CodeTable(c: char)
    ensures EncodeChar(c, HEADER) ==
            if c == '\n' then ['\\', 'n'] else if c == '\\' || c == '|' then ['\\', c] else [c]
    ensures EncodeChar(c, EXTENSION) ==
            if c == '\n' then ['\\', 'n'] else if c == '\\' || c == '|' || c == '=' then ['\\', c] else [c]
    ensures EncodeChar(c, SD_VALUE) ==
            if c == '\n' then ['\\', 'n'] else if c == '\\' || c == '\"' || c == ']' then ['\\', c] else [c]
  {
  }

  function Encode(s: string, cs: string): string
  {
    if s == "" then "" else EncodeChar(s[0], cs) + Encode(s[1..], cs)
  }

  /** Characters to escape: backslash first, distinct, neither line breaks nor the letter n. */
  predicate Specials(cs: string)
  {
    && cs != "" && cs[0] == '\\'
    && (forall i, j :: 0 <= i < j < |cs| ==> cs[i] != cs[j])
    && (forall c :: c in cs ==> !IsBreak(c) && c != 'n')
  }

  function Guard(c: char, cs: string): string { if c in cs then ['\\', c] else [c] }

  lemma ReplaceHead(s: string, c: char)
    requires s != ""
    ensures Replace(s, [c], ['\\', c]) == (if s[0] == c then ['\\', c] else [s[0]]) + Replace(s[1..], [c], ['\\', c])
  {
    assert s[..1] == [s[0]];
  }

  /** Replacing further characters leaves a guarded character of an earlier step alone. */
  lemma {:induction false} ReplaceEachHead(c: char, t: string, cs: string)
    requires forall i, j :: 0 <= i < j < |cs| ==> cs[i] != cs[j]
    ensures '\\' !in cs || (cs != "" && cs[0] == '\\') ==> ReplaceEach([c] + t, cs) == Guard(c, cs) + ReplaceEach(t, cs)
    ensures '\\' !in cs && c !in cs ==> ReplaceEach(['\\', c] + t, cs) == ['\\', c] + ReplaceEach(t, cs)
    decreases |cs|
  {
    hide Replace;
    if cs != "" {
      var d, rest := cs[0], cs[1..];
      var t' := Replace(t, [d], ['\\', d]);
      ReplaceHead([c] + t, d);
      assert ([c] + t)[1..] == t;
      ReplaceEachHead(c, t', rest);
      if '\\' !in cs {
        ReplaceHead(['\\', c] + t, d);
        assert (['\\', c] + t)[1..] == [c] + t;
        assert ['\\'] + ([c] + t') == ['\\', c] + t';
      }
    }
  }

  lemma NewlinesHead(s: string, nl: string)
    requires s != "" && OneLine(nl)
    ensures |s| >= 2 && s[0] == '\r' && s[1] == '\n' ==> Newlines(s, nl) == nl + Newlines(s[2..], nl)
    ensures !(|s| >= 2 && s[0] == '\r' && s[1] == '\n') ==>
              Newlines(s, nl) == (if IsBreak(s[0]) then nl else [s[0]]) + Newlines(s[1..], nl)
  {
    var crlf := |s| >= 2 && s[0] == '\r' && s[1] == '\n';
    var rest := if crlf then s[2..] else s[1..];
    if |s| >= 2 { assert s[..2] == [s[0], s[1]]; }
    var a, a' := Replace(s, "\r\n", nl), Replace(rest, "\r\n", nl);
    assert a == (if crlf then nl else [s[0]]) + a';
    var b, b' := Replace(a, "\n", nl), Replace(a', "\n", nl);
    var head := if crlf then nl else [s[0]];
    if crlf {
      ReplaceThrough(nl, a', '\n', nl);
      ReplaceThrough(nl, b', '\r', nl);
    } else {
      assert a[..1] == [s[0]] && a[1..] == a';
      if s[0] == '\n' {
        ReplaceThrough(nl, b', '\r', nl);
      } else {
        assert b == [s[0]] + b' && b[..1] == [s[0]] && b[1..] == b';
      }
    }
  }

  /** Replacing a character that a prefix does not hold leaves the prefix alone. */
  lemma {:induction false} ReplaceThrough(p: string, t: string, c: char, rep: string)
    requires c !in p
    ensures Replace(p + t, [c], rep) == p + Replace(t, [c], rep)
  {
    if p == "" {
      assert p + t == t;
    } else {
      assert (p + t)[..1] == [p[0]] && (p + t)[1..] == p[1..] + t;
      ReplaceThrough(p[1..], t, c, rep);
    }
  }

  /** Newline normalisation after the guards, one character of the original text at a time. */
  lemma {:induction false} EscapeIsEncode(s: string, cs: string)
    requires Specials(cs)
    ensures Escape(s, cs) == Encode(Norm(s), cs)
    decreases |s|
  {
    hide Newlines, ReplaceEach, Guard, Specials;
    if s == "" {
      EscapeEmpty(cs);
    } else if |s| >= 2 && s[0] == '\r' && s[1] == '\n' {
      GuardBreak(s, cs);
      GuardBreak(s[1..], cs);
      var t := ReplaceEach(s, cs);
      assert s[1..][1..] == s[2..];
      assert t == "\r\n" + ReplaceEach(s[2..], cs) && t[2..] == ReplaceEach(s[2..], cs);
      NewlinesHead(t, "\\n");
      EscapeIsEncode(s[2..], cs);
      assert ("\n" + Norm(s[2..]))[1..] == Norm(s[2..]);
    } else if IsBreak(s[0]) {
      GuardBreak(s, cs);
      var t := ReplaceEach(s, cs);
      assert t[1..] == ReplaceEach(s[1..], cs);
      if |s| >= 2 { FirstGuarded(s[1..], cs); } else { ReplaceEachEmpty(cs); }
      assert |t| >= 2 ==> t[1] == ReplaceEach(s[1..], cs)[0];
      NewlinesHead(t, "\\n");
      EscapeIsEncode(s[1..], cs);
      assert ("\n" + Norm(s[1..]))[1..] == Norm(s[1..]);
    } else {
      GuardPlain(s, cs);
      EscapeIsEncode(s[1..], cs);
      assert ([s[0]] + Norm(s[1..]))[1..] == Norm(s[1..]);
    }
  }

  lemma EscapeEmpty(cs: string)
    ensures Escape("", cs) == ""
  {
    ReplaceEachEmpty(cs);
  }

  lemma {:induction false} ReplaceEachEmpty(cs: string)
    ensures ReplaceEach("", cs) == ""
  {
    if cs != "" { ReplaceEachEmpty(cs[1..]); }
  }

  lemma GuardBreak(s: string, cs: string)
    requires Specials(cs) && s != "" && IsBreak(s[0])
    ensures ReplaceEach(s, cs) == [s[0]] + ReplaceEach(s[1..], cs)
  {
    assert s == [s[0]] + s[1..];
    ReplaceEachHead(s[0], s[1..], cs);
  }

  /** The first character after the guards is a line feed only if the first character was one. */
  lemma FirstGuarded(s: string, cs: string)
    requires Specials(cs) && s != ""
    ensures ReplaceEach(s, cs) != "" && (ReplaceEach(s, cs)[0] == '\n' ==> s[0] == '\n')
  {
    assert s == [s[0]] + s[1..];
    ReplaceEachHead(s[0], s[1..], cs);
  }

  lemma GuardPlain(s: string, cs: string)
    requires Specials(cs) && s != "" && !IsBreak(s[0])
    ensures Escape(s, cs) == EncodeChar(s[0], cs) + Escape(s[1..], cs)
  {
    hide Newlines, ReplaceEach;
    assert s == [s[0]] + s[1..];
    ReplaceEachHead(s[0], s[1..], cs);
    var t, rest := ReplaceEach(s, cs), ReplaceEach(s[1..], cs);
    NewlinesHead(t, "\\n");
    if s[0] in cs {
      assert t[1..] == [s[0]] + rest && ([s[0]] + rest)[1..] == rest;
      NewlinesHead(t[1..], "\\n");
      assert ['\\'] + ([s[0]] + Newlines(rest, "\\n")) == ['\\', s[0]] + Newlines(rest, "\\n");
    } else {
      assert t[1..] == rest;
    }
  }

  // ------------------------------------------------------------------ reading back

  /** A reader under this program's convention: backslash-n is a line feed, a backslash before anything else
      stands for that character. */
  function Unescape(t: string): string
  {
    if |t| < 2 then t
    else if t[0] == '\\' then [if t[1] == 'n' then '\n' else t[1]] + Unescape(t[2..])
    else [t[0]] + Unescape(t[1..])
  }

  /** A reader of PARAM-VALUE under RFC 5424 section 6.3.3: only the three listed characters can be escaped; any
      other backslash is an ordinary character. */
  function UnescapeRfc5424(t: string): string
  {
    if |t| < 2 then t
    else if t[0] == '\\' && t[1] in SD_VALUE then [t[1]] + UnescapeRfc5424(t[2..])
    else [t[0]] + UnescapeRfc5424(t[1..])
  }

  lemma {:induction false} NormHasNoCarriageReturn(s: string)
    ensures '\r' !in Norm(s)
    decreases |s|
  {
    if s != "" {
      NormHasNoCarriageReturn(s[1..]);
      if |s| >= 2 { NormHasNoCarriageReturn(s[2..]); }
    }
  }

  lemma {:induction false} UnescapeEncode(s: string, cs: string)
    requires Specials(cs)
    ensures Unescape(Encode(s, cs)) == s
  {
    hide Unescape, EncodeChar, Specials;
    if s == "" {
      UnescapeNothing();
    } else {
      UnescapeEncode(s[1..], cs);
      UnescapeChar(s[0], Encode(s[1..], cs), cs);
    }
  }

  lemma UnescapeNothing()
    ensures Unescape("") == ""
  {
  }

  lemma UnescapeChar(c: char, t: string, cs: string)
    requires Specials(cs)
    ensures Unescape(EncodeChar(c, cs) + t) == [c] + Unescape(t)
  {
    var h := EncodeChar(c, cs);
    assert (h + t)[|h|..] == t;
  }

  /** Escaping and reading back gives the text with its line breaks normalised. */
  lemma UnescapeEscape(s: string, cs: string)
    requires Specials(cs)
    ensures Unescape(Escape(s, cs)) == Norm(s)
  {
    EscapeIsEncode(s, cs);
    UnescapeEncode(Norm(s), cs);
  }

  lemma {:induction false} EncodeIsOneLine(s: string, cs: string)
    requires Specials(cs) && '\r' !in s
    ensures OneLine(Encode(s, cs))
  {
    if s != "" { EncodeIsOneLine(s[1..], cs); }
  }

  lemma EscapeIsOneLine(s: string, cs: string)
    requires Specials(cs)
    ensures OneLine(Escape(s, cs))
  {
    EscapeIsEncode(s, cs);
    NormHasNoCarriageReturn(s);
    EncodeIsOneLine(Norm(s), cs);
  }

  lemma {:induction false} NormOfOneLine(s: string)
    ensures OneLine(s) <==> Norm(s) == s && '\n' !in s
    decreases |s|
  {
    if s != "" {
      NormOfOneLine(s[1..]);
      assert s == [s[0]] + s[1..];
      assert OneLine(s) <==> !IsBreak(s[0]) && OneLine(s[1..]) by {
        assert forall i :: 1 <= i < |s| ==> s[i] == s[1..][i - 1];
      }
      NormHasNoCarriageReturn(s);
      if Norm(s) == s && '\n' !in s {
        assert s[0] in s;
        assert Norm(s)[1..] == Norm(s[1..]);
        assert forall c :: c in s[1..] ==> c in s;
      }
    }
  }

  lemma {:induction false} RfcReadsEncoded(s: string)
    requires '\n' !in s
    ensures UnescapeRfc5424(Encode(s, SD_VALUE)) == s
  {
    hide UnescapeRfc5424, EncodeChar;
    if s == "" {
      RfcReadsNothing();
    } else {
      assert forall c :: c in s[1..] ==> c in s;
      RfcReadsEncoded(s[1..]);
      assert s[0] in s;
      RfcReadsChar(s[0], Encode(s[1..], SD_VALUE));
    }
  }

  lemma RfcReadsNothing()
    ensures UnescapeRfc5424("") == ""
  {
  }

  lemma RfcReadsChar(c: char, t: string)
    requires c != '\n'
    ensures UnescapeRfc5424(EncodeChar(c, SD_VALUE) + t) == [c] + UnescapeRfc5424(t)
  {
    var h := EncodeChar(c, SD_VALUE);
    assert (h + t)[|h|..] == t;
  }

  lemma {:induction false} RfcKeepsOneLine(t: string)
    requires OneLine(t)
    ensures OneLine(UnescapeRfc5424(t))
    decreases |t|
  {
    if |t| >= 2 {
      RfcKeepsOneLine(t[1..]);
      RfcKeepsOneLine(t[2..]);
    }
  }

  /** A reader that follows RFC 5424 gets a structured-data value back exactly when it has no line break: the
      backslash-n written for a break reads as a backslash and an n there. */
  lemma RfcReadsExactly(s: string)
    ensures UnescapeRfc5424(EscapeSdValue(s)) == s <==> OneLine(s)
  {
    EscapeIsEncode(s, SD_VALUE);
    if OneLine(s) {
      NormOfOneLine(s);
      RfcReadsEncoded(s);
    }
    EscapeIsOneLine(s, SD_VALUE);
    RfcKeepsOneLine(EscapeSdValue(s));
  }
}

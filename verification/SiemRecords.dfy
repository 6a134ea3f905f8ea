/** Whole CEF records, a reader for them, and the proof that every record reads back to its fields. CEF follows the
    ArcSight Common Event Format's escaping rules. */
module SiemRecords {
  import opened Wrappers
  import opened Text
  import opened SiemEscape

  /** A normalised event. An absent field and an empty one are alike here: both are falsy in the source.
      `timestamp` is its ISO text. */
  datatype Event = Event(
    timestamp: string, kind: string, category: string, severity: string, title: string, message: string,
    sourceIp: string, destinationIp: string, protocol: string, processName: string, techniqueId: string)

  type Pairs = seq<(string, string)>

  // ------------------------------------------------------------------ writing CEF

  function CefSeverity(s: string): nat
  {
    if s == "critical" then 10 else if s == "high" then 8 else if s == "medium" then 5 else if s == "low" then 3 else 1
  }

  function Given(key: string, value: string): Pairs { if value == "" then [] else [(key, value)] }

  function CefPairs(ev: Event): Pairs
  {
    Given("src", ev.sourceIp) + Given("dst", ev.destinationIp) + Given("proto", ev.protocol)
    + Given("dproc", ev.processName)
    + (if ev.techniqueId == "" then [] else [("cs1", ev.techniqueId), ("cs1Label", "mitreTechniqueId")])
    + [("cat", ev.category), ("rt", ev.timestamp)] + Given("msg", ev.message)
  }

  function CefHeader(ev: Event): seq<string>
  {
    ["CEF:0", "NetAudit", "NetAudit", "1.0", EscapeCefHeaderField(ev.category), EscapeCefHeaderField(ev.title),
     Decimal(CefSeverity(ev.severity))]
  }

  function PairText(p: (string, string)): string { p.0 + "=" + EscapeCefExtensionValue(p.1) }

  function Extension(pairs: Pairs): string
  {
    if pairs == [] then "" else if |pairs| == 1 then PairText(pairs[0])
    else PairText(pairs[0]) + " " + Extension(pairs[1..])
  }

  function CefRecord(ev: Event): string { Join(CefHeader(ev), "|") + "|" + Extension(CefPairs(ev)) + "\n" }

  /** `to_cef`: the pair list is appended to step by step. */
  method ToCef(events: seq<Event>) returns (records: seq<string>)
    ensures records == seq(|events|, i requires 0 <= i < |events| => CefRecord(events[i]))
  {
    hide CefRecord;
    records := [];
    for i := 0 to |events|
      invariant records == seq(i, k requires 0 <= k < i => CefRecord(events[k]))
    {
      var record := WriteCef(events[i]);
      records := records + [record];
    }
  }

  method AppendGiven(pairs: Pairs, key: string, value: string) returns (r: Pairs)
    ensures r == pairs + Given(key, value)
  {
    r := pairs;
    if value != "" { r := r + [(key, value)]; }
  }

  method WriteCef(ev: Event) returns (record: string)
    ensures record == CefRecord(ev)
  {
    hide Given, CefHeader, Extension;
    var pairs := AppendGiven([], "src", ev.sourceIp);
    pairs := AppendGiven(pairs, "dst", ev.destinationIp);
    pairs := AppendGiven(pairs, "proto", ev.protocol);
    pairs := AppendGiven(pairs, "dproc", ev.processName);
    if ev.techniqueId != "" {
      pairs := pairs + [("cs1", ev.techniqueId), ("cs1Label", "mitreTechniqueId")];
    }
    pairs := pairs + [("cat", ev.category), ("rt", ev.timestamp)];
    pairs := AppendGiven(pairs, "msg", ev.message);
    assert pairs == CefPairs(ev);
    record := Join(CefHeader(ev), "|") + "|" + Extension(pairs) + "\n";
  }

  // ------------------------------------------------------------------ escape-aware scanning

  /** The text before and after the first unescaped `sep`. */
  function Cut(s: string, sep: char): (r: Option<(string, string)>)
    ensures r.Some? ==> |r.value.0| + 1 + |r.value.1| == |s|
  {
    if s == "" then None
    else if s[0] == sep then Some(("", s[1..]))
    else
      var step := if s[0] == '\\' && |s| >= 2 then 2 else 1;
      var r := Cut(s[step..], sep);
      if r.None? then None else Some((s[..step] + r.value.0, r.value.1))
  }

  function SplitUnescaped(s: string, sep: char): (parts: seq<string>)
    ensures |parts| > 0
    decreases |s|
  {
    var r := Cut(s, sep);
    if r.None? then [s] else [r.value.0] + SplitUnescaped(r.value.1, sep)
  }

  /** No unescaped `sep`, and no escape left open at the end. */
  predicate Closed(s: string, sep: char)
  {
    s == "" || (if s[0] == '\\' then |s| >= 2 && Closed(s[2..], sep) else s[0] != sep && Closed(s[1..], sep))
  }

  lemma {:induction false} CutClosed(a: string, t: string, sep: char)
    requires Closed(a, sep) && sep != '\\'
    ensures Cut(a + [sep] + t, sep) == Some((a, t))
    ensures Cut(a, sep) == None
  {
    hide Cut;
    if a == "" {
      CutHere(t, sep);
      assert a + [sep] + t == [sep] + t;
    } else {
      var step := if a[0] == '\\' then 2 else 1;
      CutClosed(a[step..], t, sep);
      assert a + [sep] + t == a[..step] + (a[step..] + [sep] + t);
      CutPast(a[..step], a[step..] + [sep] + t, sep);
      CutPast(a[..step], a[step..], sep);
      assert a[..step] + a[step..] == a;
    }
  }

  lemma CutHere(t: string, sep: char)
    ensures Cut([sep] + t, sep) == Some(("", t)) && Cut("", sep) == None
  {
    assert ([sep] + t)[1..] == t;
  }

  /** An ordinary character, or an escaped one with its backslash, is never the cut. */
  lemma CutPast(c: string, t: string, sep: char)
    requires sep != '\\' && if |c| == 2 then c[0] == '\\' else |c| == 1 && c[0] != '\\' && c[0] != sep
    ensures Cut(c + t, sep) == (var r := Cut(t, sep); if r.None? then None else Some((c + r.value.0, r.value.1)))
  {
    assert (c + t)[|c|..] == t && (c + t)[..|c|] == c;
  }

  lemma {:induction false} ClosedAppend(a: string, b: string, sep: char)
    requires Closed(a, sep) && Closed(b, sep)
    ensures Closed(a + b, sep)
  {
    if a == "" {
      assert a + b == b;
    } else {
      var step := if a[0] == '\\' then 2 else 1;
      assert (a + b)[step..] == a[step..] + b;
      ClosedAppend(a[step..], b, sep);
    }
  }

  lemma {:induction false} PlainClosed(a: string, sep: char)
    requires sep !in a && '\\' !in a
    ensures Closed(a, sep)
  {
    if a != "" { PlainClosed(a[1..], sep); }
  }

  lemma {:induction false} EncodeClosed(s: string, cs: string, sep: char)
    requires Specials(cs) && sep in cs && sep != '\\'
    ensures Closed(Encode(s, cs), sep)
  {
    if s != "" {
      EncodeClosed(s[1..], cs, sep);
      var h, t := EncodeChar(s[0], cs), Encode(s[1..], cs);
      assert (h + t)[|h|..] == t;
    }
  }

  lemma EscapeClosed(s: string, cs: string, sep: char)
    requires Specials(cs) && sep in cs && sep != '\\'
    ensures Closed(Escape(s, cs), sep)
  {
    EscapeIsEncode(s, cs);
    EncodeClosed(Norm(s), cs, sep);
  }

  /** Splitting closed parts joined by the separator gives the parts. */
  lemma {:induction false} SplitClosed(parts: seq<string>, sep: char)
    requires |parts| > 0 && sep != '\\' && forall i :: 0 <= i < |parts| ==> Closed(parts[i], sep)
    ensures SplitUnescaped(Join(parts, [sep]), sep) == parts
  {
    if |parts| == 1 {
      CutClosed(parts[0], "", sep);
    } else {
      SplitClosed(parts[1..], sep);
      CutClosed(parts[0], Join(parts[1..], [sep]), sep);
    }
  }

  // ------------------------------------------------------------------ reading CEF

  /** What a CEF reader gets: the seven header fields and the extension's keys and values. */
  datatype CefContent = CefContent(header: seq<string>, pairs: Pairs)

  function LastSpace(s: string): (k: nat)
    ensures k <= |s| && (k < |s| ==> s[k] == ' ')
  {
    if s == "" then 0
    else
      var k := LastSpace(s[1..]);
      if k < |s| - 1 then k + 1 else if s[0] == ' ' then 0 else |s|
  }

  /** The segments between unescaped "=": all but the last end in a space and the next key. */
  function ReadPairs(key: string, segments: seq<string>): Pairs
    decreases |segments|
  {
    if |segments| == 0 then []
    else if |segments| == 1 then [(key, Unescape(segments[0]))]
    else
      var k := LastSpace(segments[0]);
      if k == |segments[0]| then ReadPairs(key, segments[1..])
      else [(key, Unescape(segments[0][..k]))] + ReadPairs(segments[0][k + 1..], segments[1..])
  }

  function ReadExtension(ext: string): Pairs
  {
    var segments := SplitUnescaped(ext, '=');
    ReadPairs(segments[0], segments[1..])
  }

  function UnescapeAll(parts: seq<string>): seq<string>
  {
    seq(|parts|, i requires 0 <= i < |parts| => Unescape(parts[i]))
  }

  function ReadCef(line: string): Option<CefContent>
  {
    var parts := SplitUnescaped(line, '|');
    if |parts| != 8 then None else Some(CefContent(UnescapeAll(parts[..7]), ReadExtension(parts[7])))
  }

  function NormPairs(pairs: Pairs): Pairs
  {
    if pairs == [] then [] else [(pairs[0].0, Norm(pairs[0].1))] + NormPairs(pairs[1..])
  }

  /** Keys as this program writes them. */
  predicate PlainKey(k: string)
  {
    forall i :: 0 <= i < |k| ==>
      k[i] != ' ' && k[i] != '=' && k[i] != '\\' && k[i] != '"' && k[i] != '|' && !IsBreak(k[i])
  }

  predicate PlainKeys(pairs: Pairs) { forall i :: 0 <= i < |pairs| ==> PlainKey(pairs[i].0) }

  lemma {:induction false} LastSpaceBefore(a: string, key: string)
    requires PlainKey(key)
    ensures LastSpace(a + " " + key) == |a|
  {
    if a == "" {
      NoSpace(key);
      assert (a + " " + key)[1..] == key;
    } else {
      LastSpaceBefore(a[1..], key);
      assert (a + " " + key)[1..] == a[1..] + " " + key;
    }
  }

  lemma {:induction false} NoSpace(key: string)
    requires ' ' !in key
    ensures LastSpace(key) == |key|
  {
    if key != "" { NoSpace(key[1..]); }
  }

  lemma EscapedValue(v: string)
    ensures Closed(EscapeCefExtensionValue(v), '=') && Unescape(EscapeCefExtensionValue(v)) == Norm(v)
    ensures Closed(EscapeCefExtensionValue(v), '|') && OneLine(EscapeCefExtensionValue(v))
  {
    EscapeClosed(v, EXTENSION, '=');
    EscapeClosed(v, EXTENSION, '|');
    UnescapeEscape(v, EXTENSION);
    EscapeIsOneLine(v, EXTENSION);
  }

  /** An extension after its first key and "=". */
  function Tail(pairs: Pairs): string
    requires pairs != []
  {
    var text := EscapeCefExtensionValue(pairs[0].1);
    if |pairs| == 1 then text else text + " " + Extension(pairs[1..])
  }

  lemma ExtensionShape(pairs: Pairs)
    requires pairs != []
    ensures Extension(pairs) == pairs[0].0 + "=" + Tail(pairs)
  {
    hide EscapeCefExtensionValue;
  }

  /** The text after the first key's "=" reads back to all the pairs. */
  lemma {:induction false} TailReadsBack(pairs: Pairs)
    requires pairs != [] && PlainKeys(pairs)
    ensures ReadPairs(pairs[0].0, SplitUnescaped(Tail(pairs), '=')) == NormPairs(pairs)
    decreases |pairs|
  {
    hide EscapeCefExtensionValue, Closed, Cut, SplitUnescaped, LastSpace, PlainKey, Unescape, Norm, Extension;
    var (key, v) := pairs[0];
    var text := EscapeCefExtensionValue(v);
    EscapedValue(v);
    if |pairs| == 1 {
      LoneSegment(text);
      assert NormPairs(pairs[1..]) == [];
    } else {
      TailReadsBack(pairs[1..]);
      ExtensionShape(pairs[1..]);
      NextSegment(text, pairs[1].0, Extension(pairs[1..]), Tail(pairs[1..]));
      ReadNext(key, SplitUnescaped(Tail(pairs), '='), |text|);
    }
  }

  lemma KeyClosed(key: string)
    requires PlainKey(key)
    ensures Closed(key, '=') && Closed(key, '|')
  {
    PlainClosed(key, '=');
    PlainClosed(key, '|');
  }

  lemma LoneSegment(text: string)
    requires Closed(text, '=')
    ensures SplitUnescaped(text, '=') == [text]
  {
    CutClosed(text, "", '=');
  }

  lemma ReadNext(key: string, segments: seq<string>, k: nat)
    requires |segments| > 1 && LastSpace(segments[0]) == k < |segments[0]|
    ensures ReadPairs(key, segments)
         == [(key, Unescape(segments[0][..k]))] + ReadPairs(segments[0][k + 1..], segments[1..])
  {
  }

  /** A value, a space and the next key up to its "=" are one segment, split at its last space. */
  lemma NextSegment(text: string, next: string, rest: string, after: string)
    requires Closed(text, '=') && PlainKey(next) && rest == next + "=" + after
    ensures var segments := SplitUnescaped(text + " " + rest, '=');
            && |segments| > 1 && segments[1..] == SplitUnescaped(after, '=')
            && LastSpace(segments[0]) == |text| < |segments[0]|
            && segments[0][..|text|] == text && segments[0][|text| + 1..] == next
  {
    hide Closed, PlainKey, Cut, SplitUnescaped, LastSpace;
    KeyClosed(next);
    SpaceClosed();
    ClosedAppend(text, " ", '=');
    ClosedAppend(text + " ", next, '=');
    var seg := text + " " + next;
    assert text + " " + rest == seg + "=" + after;
    FirstSegment(seg, after);
    LastSpaceBefore(text, next);
  }

  lemma SpaceClosed()
    ensures Closed(" ", '=')
  {
    PlainClosed(" ", '=');
  }

  lemma FirstSegment(seg: string, after: string)
    requires Closed(seg, '=')
    ensures SplitUnescaped(seg + "=" + after, '=') == [seg] + SplitUnescaped(after, '=')
  {
    hide Closed, Cut;
    CutClosed(seg, after, '=');
  }

  /** Reading an extension recovers every key, and every value up to line-break normalisation, whatever spaces,
      equals signs, pipes or backslashes the values hold. */
  lemma ExtensionReadsBack(pairs: Pairs)
    requires pairs != [] && PlainKeys(pairs)
    ensures ReadExtension(Extension(pairs)) == NormPairs(pairs)
  {
    hide Extension, Closed, PlainKey, Tail, ReadPairs;
    ExtensionShape(pairs);
    KeyClosed(pairs[0].0);
    CutClosed(pairs[0].0, Tail(pairs), '=');
    TailReadsBack(pairs);
    var segments := SplitUnescaped(Extension(pairs), '=');
    assert segments[1..] == SplitUnescaped(Tail(pairs), '=');
  }

  lemma OneLineAppend(a: string, b: string)
    ensures OneLine(a + b) <==> OneLine(a) && OneLine(b)
  {
    hide IsBreak;
    if OneLine(a + b) {
      assert forall i :: 0 <= i < |a| ==> a[i] == (a + b)[i];
      assert forall i :: 0 <= i < |b| ==> b[i] == (a + b)[|a| + i];
    }
  }

  lemma PairClosed(p: (string, string))
    requires PlainKey(p.0)
    ensures Closed(PairText(p), '|') && OneLine(PairText(p))
  {
    hide EscapeCefExtensionValue;
    EscapedValue(p.1);
    KeyClosed(p.0);
    PlainClosed("=", '|');
    ClosedAppend(p.0, "=", '|');
    ClosedAppend(p.0 + "=", EscapeCefExtensionValue(p.1), '|');
    OneLineAppend(p.0 + "=", EscapeCefExtensionValue(p.1));
  }

  lemma {:induction false} ExtensionClosed(pairs: Pairs)
    requires PlainKeys(pairs)
    ensures Closed(Extension(pairs), '|') && OneLine(Extension(pairs))
  {
    hide PairText, PlainKey, OneLine, Closed;
    if pairs == [] {
      PlainText("");
    } else {
      PairClosed(pairs[0]);
      if |pairs| > 1 {
        ExtensionClosed(pairs[1..]);
        PlainText(" ");
        ClosedAppend(PairText(pairs[0]), " ", '|');
        ClosedAppend(PairText(pairs[0]) + " ", Extension(pairs[1..]), '|');
        OneLineAppend(PairText(pairs[0]), " ");
        OneLineAppend(PairText(pairs[0]) + " ", Extension(pairs[1..]));
      }
    }
  }

  predicate Plain(s: string)
  {
    forall i :: 0 <= i < |s| ==> s[i] != '|' && s[i] != '\\' && !IsBreak(s[i])
  }

  /** Text that needs no escaping. */
  lemma {:induction false} PlainText(s: string)
    requires Plain(s)
    ensures Closed(s, '|') && OneLine(s) && Unescape(s) == s
  {
    PlainClosed(s, '|');
    UnescapePlain(s);
  }

  lemma CefKeysPlain(ev: Event)
    ensures PlainKeys(CefPairs(ev)) && CefPairs(ev) != []
  {
    hide PlainKey;
    LiteralKeys();
  }

  lemma LiteralKeys()
    ensures forall k :: k in {"src", "dst", "proto", "dproc", "cs1", "cs1Label", "cat", "rt", "msg"} ==> PlainKey(k)
  {
  }

  lemma HeaderField(v: string)
    ensures Closed(EscapeCefHeaderField(v), '|') && OneLine(EscapeCefHeaderField(v))
    ensures Unescape(EscapeCefHeaderField(v)) == Norm(v)
  {
    EscapeClosed(v, HEADER, '|');
    EscapeIsOneLine(v, HEADER);
    UnescapeEscape(v, HEADER);
  }

  lemma {:induction false} UnescapePlain(s: string)
    requires '\\' !in s
    ensures Unescape(s) == s
  {
    if |s| >= 2 { UnescapePlain(s[1..]); }
  }

  /** The content a reader is meant to get. */
  function CefMeaning(ev: Event): CefContent
  {
    CefContent(["CEF:0", "NetAudit", "NetAudit", "1.0", Norm(ev.category), Norm(ev.title),
                Decimal(CefSeverity(ev.severity))],
               NormPairs(CefPairs(ev)))
  }

  lemma DecimalPlain(n: nat)
    ensures Plain(Decimal(n))
  {
    hide Decimal;
    var d := Decimal(n);
    assert forall i :: 0 <= i < |d| ==> d[i] in d;
  }

  lemma LiteralsPlain()
    ensures Plain("CEF:0") && Plain("NetAudit") && Plain("1.0")
  {
  }

  lemma HeaderPlain(ev: Event, i: nat)
    requires i < 7
    ensures Closed(CefHeader(ev)[i], '|') && OneLine(CefHeader(ev)[i])
    ensures Unescape(CefHeader(ev)[i]) == CefMeaning(ev).header[i]
  {
    hide EscapeCefHeaderField, Decimal, CefPairs, Norm, Plain, Closed, OneLine, Unescape, CefSeverity, NormPairs;
    HeaderField(ev.category);
    HeaderField(ev.title);
    LiteralsPlain();
    DecimalPlain(CefSeverity(ev.severity));
    if i != 4 && i != 5 { PlainText(CefHeader(ev)[i]); }
  }

  lemma {:induction false} JoinOneLine(parts: seq<string>, sep: string)
    requires OneLine(sep) && forall i :: 0 <= i < |parts| ==> OneLine(parts[i])
    ensures OneLine(Join(parts, sep))
  {
    if |parts| > 1 { JoinOneLine(parts[1..], sep); }
  }

  lemma {:induction false} JoinSnoc(parts: seq<string>, last: string, sep: string)
    requires |parts| > 0
    ensures Join(parts + [last], sep) == Join(parts, sep) + sep + last
  {
    assert (parts + [last])[1..] == parts[1..] + [last];
    if |parts| > 1 {
      JoinSnoc(parts[1..], last, sep);
      assert parts[0] + sep + (Join(parts[1..], sep) + sep + last)
          == parts[0] + sep + Join(parts[1..], sep) + sep + last;
    }
  }

  /** A record is one line: its only line break is its last character. */
  predicate IsOneRecord(r: string) { r != "" && r[|r| - 1] == '\n' && OneLine(r[..|r| - 1]) }

  /** Every CEF record is one line that reads back uniquely: exactly seven header fields and the extension. */
  lemma CefReadsBack(ev: Event)
    ensures var r := CefRecord(ev); IsOneRecord(r) && ReadCef(r[..|r| - 1]) == Some(CefMeaning(ev))
  {
    hide CefHeader, CefPairs, CefMeaning, Extension, ReadExtension;
    var header, ext := CefHeader(ev), Extension(CefPairs(ev));
    CefHeaderSize(ev);
    forall i | 0 <= i < 7
      ensures Closed(header[i], '|') && OneLine(header[i]) && Unescape(header[i]) == CefMeaning(ev).header[i]
    {
      HeaderPlain(ev, i);
    }
    CefKeysPlain(ev);
    ExtensionClosed(CefPairs(ev));
    ExtensionReadsBack(CefPairs(ev));
    var parts := header + [ext];
    JoinSnoc(header, ext, "|");
    SplitClosed(parts, '|');
    JoinOneLine(parts, "|");
    var r := CefRecord(ev);
    assert r[..|r| - 1] == Join(parts, "|");
    assert parts[..7] == header && UnescapeAll(header) == CefMeaning(ev).header;
  }

  lemma CefHeaderSize(ev: Event)
    ensures |CefHeader(ev)| == 7 == |CefMeaning(ev).header| && CefMeaning(ev).pairs == NormPairs(CefPairs(ev))
  {
  }
}

/** Syslog records with structured data (RFC 5424 section 6) and a reader for them. */
module SiemSyslog {
  import opened Wrappers
  import opened Text
  import opened SiemEscape
  import opened SiemRecords

  const SD_ID := "netaudit@32473"

  function SyslogSeverity(s: string): nat
  {
    if s == "critical" then 2 else if s == "high" then 3 else if s == "medium" then 4 else if s == "low" then 5 else 6
  }

  function MsgId(ev: Event): string { if ev.kind == "" then "-" else ev.kind }

  function Params(ev: Event): Pairs
  {
    [("category", ev.category), ("title", ev.title)]
    + Given("sourceIp", ev.sourceIp) + Given("destinationIp", ev.destinationIp) + Given("protocol", ev.protocol)
    + Given("processName", ev.processName) + Given("techniqueId", ev.techniqueId)
  }

  function ParamsText(pairs: Pairs): string
    requires pairs != []
  {
    var text := pairs[0].0 + "=\"" + EscapeSdValue(pairs[0].1) + "\"";
    if |pairs| == 1 then text else text + " " + ParamsText(pairs[1..])
  }

  function Message(ev: Event): string { Newlines(if ev.message != "" then ev.message else ev.title, " ") }

  /** The space-separated fields before the structured data. */
  function Fields(ev: Event): seq<string>
  {
    ["<" + Decimal(13 * 8 + SyslogSeverity(ev.severity)) + ">1", ev.timestamp, "netaudit", "netaudit", "-", MsgId(ev)]
  }

  function Spaced(fields: seq<string>, rest: string): string
  {
    if fields == [] then rest else fields[0] + " " + Spaced(fields[1..], rest)
  }

  function StructuredData(ev: Event): string { "[" + SD_ID + " " + ParamsText(Params(ev)) + "]" }

  function SyslogRecord(ev: Event): string { Spaced(Fields(ev), StructuredData(ev) + " " + Message(ev)) + "\n" }

  /** `to_syslog`, with its parameter list appended to step by step. */
  method ToSyslog(events: seq<Event>) returns (records: seq<string>)
    ensures records == seq(|events|, i requires 0 <= i < |events| => SyslogRecord(events[i]))
  {
    hide SyslogRecord;
    records := [];
    for i := 0 to |events|
      invariant records == seq(i, k requires 0 <= k < i => SyslogRecord(events[k]))
    {
      var record := WriteSyslog(events[i]);
      records := records + [record];
    }
  }

  method WriteSyslog(ev: Event) returns (record: string)
    ensures record == SyslogRecord(ev)
  {
    hide Given, ParamsText, Fields, Message;
    var params: Pairs := [("category", ev.category), ("title", ev.title)];
    params := AppendGiven(params, "sourceIp", ev.sourceIp);
    params := AppendGiven(params, "destinationIp", ev.destinationIp);
    params := AppendGiven(params, "protocol", ev.protocol);
    params := AppendGiven(params, "processName", ev.processName);
    params := AppendGiven(params, "techniqueId", ev.techniqueId);
    record := Spaced(Fields(ev), "[" + SD_ID + " " + ParamsText(params) + "]" + " " + Message(ev)) + "\n";
  }

  // ------------------------------------------------------------------ reading

  datatype SyslogContent = SyslogContent(fields: seq<string>, sdId: string, params: Pairs, message: string)

  /** The text before and after the first `c`. */
  function CutAt(s: string, c: char): (r: Option<(string, string)>)
    ensures r.Some? ==> s == r.value.0 + [c] + r.value.1 && c !in r.value.0
  {
    if s == "" then None
    else if s[0] == c then Some(("", s[1..]))
    else
      var r := CutAt(s[1..], c);
      if r.None? then None else Some(([s[0]] + r.value.0, r.value.1))
  }

  function TakeFields(s: string, n: nat): (r: Option<(seq<string>, string)>)
    ensures r.Some? ==> |r.value.0| == n && forall i :: 0 <= i < n ==> ' ' !in r.value.0[i]
    decreases n
  {
    if n == 0 then Some(([], s))
    else match CutAt(s, ' ')
      case None => None
      case Some((field, rest)) =>
        match TakeFields(rest, n - 1)
        case None => None
        case Some((fields, tail)) => Some(([field] + fields, tail))
  }

  /** Parameters up to the bracket that closes the element, and what follows it. */
  function ReadParams(s: string): Option<(Pairs, string)>
    decreases |s|
  {
    match Cut(s, '=')
    case None => None
    case Some((key, quoted)) =>
      if quoted == "" || quoted[0] != '"' then None
      else match Cut(quoted[1..], '"')
        case None => None
        case Some((value, rest)) =>
          if rest == "" then None
          else if rest[0] == ']' then Some(([(key, Unescape(value))], rest[1..]))
          else match ReadParams(rest[1..])
            case None => None
            case Some((more, tail)) => Some(([(key, Unescape(value))] + more, tail))
  }

  function ReadSyslog(line: string): Option<SyslogContent>
  {
    match TakeFields(line, 6)
    case None => None
    case Some((fields, sd)) =>
      if sd == "" || sd[0] != '[' then None
      else match CutAt(sd[1..], ' ')
        case None => None
        case Some((id, params)) =>
          match ReadParams(params)
          case None => None
          case Some((pairs, rest)) =>
            if rest == "" || rest[0] != ' ' then None else Some(SyslogContent(fields, id, pairs, rest[1..]))
  }

  // ------------------------------------------------------------------ properties

  lemma {:induction false} CutAtPlain(a: string, t: string, c: char)
    requires c !in a
    ensures CutAt(a + [c] + t, c) == Some((a, t))
  {
    if a == "" {
      assert (a + [c] + t)[1..] == t;
    } else {
      CutAtPlain(a[1..], t, c);
      assert (a + [c] + t)[1..] == a[1..] + [c] + t && [a[0]] + a[1..] == a;
    }
  }

  lemma {:induction false} TakeSpaced(fields: seq<string>, rest: string)
    requires forall i :: 0 <= i < |fields| ==> ' ' !in fields[i]
    ensures TakeFields(Spaced(fields, rest), |fields|) == Some((fields, rest))
  {
    if fields != [] {
      CutAtPlain(fields[0], Spaced(fields[1..], rest), ' ');
      TakeSpaced(fields[1..], rest);
      assert [fields[0]] + fields[1..] == fields;
    }
  }

  lemma SdValue(v: string)
    ensures Closed(EscapeSdValue(v), '"') && OneLine(EscapeSdValue(v)) && Unescape(EscapeSdValue(v)) == Norm(v)
  {
    EscapeClosed(v, SD_VALUE, '"');
    EscapeIsOneLine(v, SD_VALUE);
    UnescapeEscape(v, SD_VALUE);
  }

  /** One quoted parameter at the front of a text. */
  lemma ParamCut(key: string, text: string, rest: string)
    requires PlainKey(key) && Closed(text, '"')
    ensures Cut(key + "=\"" + text + "\"" + rest, '=') == Some((key, "\"" + text + "\"" + rest))
    ensures Cut(("\"" + text + "\"" + rest)[1..], '"') == Some((text, rest))
  {
    hide Cut, Closed, PlainKey;
    KeyClosed(key);
    CutClosed(key, "\"" + text + "\"" + rest, '=');
    assert key + "=\"" + text + "\"" + rest == key + "=" + ("\"" + text + "\"" + rest);
    CutClosed(text, rest, '"');
    assert ("\"" + text + "\"" + rest)[1..] == text + "\"" + rest;
  }

  lemma LastParam(s: string, key: string, text: string, rest: string)
    requires PlainKey(key) && Closed(text, '"') && s == key + "=\"" + text + "\"" + ("]" + rest)
    ensures ReadParams(s) == Some(([(key, Unescape(text))], rest))
  {
    hide PlainKey, Closed, Cut, Unescape;
    ParamCut(key, text, "]" + rest);
    assert ("]" + rest)[1..] == rest && ("]" + rest)[0] == ']';
  }

  lemma NextParam(s: string, key: string, text: string, more: string, pairs: Pairs, tail: string)
    requires PlainKey(key) && Closed(text, '"') && s == key + "=\"" + text + "\"" + (" " + more)
    requires ReadParams(more) == Some((pairs, tail))
    ensures ReadParams(s) == Some(([(key, Unescape(text))] + pairs, tail))
  {
    hide PlainKey, Closed, Cut, Unescape;
    ParamCut(key, text, " " + more);
    assert (" " + more)[1..] == more;
  }

  /** Parameters read back, each value up to line-break normalisation, and what follows is untouched. */
  lemma {:induction false} ParamsReadBack(pairs: Pairs, rest: string)
    requires pairs != [] && PlainKeys(pairs)
    ensures ReadParams(ParamsText(pairs) + "]" + rest) == Some((NormPairs(pairs), rest))
  {
    hide EscapeSdValue, PlainKey, Closed, ReadParams, Unescape, Norm;
    var (key, v) := pairs[0];
    var text := EscapeSdValue(v);
    SdValue(v);
    if |pairs| == 1 {
      assert ParamsText(pairs) + "]" + rest == key + "=\"" + text + "\"" + ("]" + rest);
      LastParam(ParamsText(pairs) + "]" + rest, key, text, rest);
      assert NormPairs(pairs) == [(key, Norm(v))];
    } else {
      var more := ParamsText(pairs[1..]) + "]" + rest;
      ParamsReadBack(pairs[1..], rest);
      assert ParamsText(pairs) + "]" + rest == key + "=\"" + text + "\"" + (" " + more);
      NextParam(ParamsText(pairs) + "]" + rest, key, text, more, NormPairs(pairs[1..]), rest);
    }
  }

  lemma ParamKeysPlain(ev: Event)
    ensures PlainKeys(Params(ev)) && Params(ev) != []
  {
    hide PlainKey;
    LiteralParamKeys();
  }

  lemma LiteralParamKeys()
    ensures PlainKey("category") && PlainKey("title") && PlainKey("sourceIp") && PlainKey("destinationIp")
    ensures PlainKey("protocol") && PlainKey("processName") && PlainKey("techniqueId")
  {
  }

  function SyslogMeaning(ev: Event): SyslogContent
  {
    SyslogContent(Fields(ev), SD_ID, NormPairs(Params(ev)), Message(ev))
  }

  lemma FieldsPlain(ev: Event)
    ensures |Fields(ev)| == 6 && Fields(ev)[1] == ev.timestamp && Fields(ev)[5] == MsgId(ev)
    ensures forall i :: 0 <= i < 6 && i != 1 && i != 5 ==> ' ' !in Fields(ev)[i] && OneLine(Fields(ev)[i])
  {
    hide Decimal, SyslogSeverity;
    var n := 13 * 8 + SyslogSeverity(ev.severity);
    DecimalPlain(n);
    assert ' ' !in "netaudit" && OneLine("netaudit") && ' ' !in "-" && OneLine("-");
    assert ' ' !in Fields(ev)[0] && OneLine(Fields(ev)[0]);
  }

  /** A syslog line reads back to its fields, parameters and message exactly when its message id, the event's
      kind, holds no space: the kind is the one field written without any escaping. */
  lemma SyslogReadsBack(ev: Event)
    requires ' ' !in ev.timestamp
    ensures var r := SyslogRecord(ev);
            ReadSyslog(r[..|r| - 1]) == Some(SyslogMeaning(ev)) <==> ' ' !in MsgId(ev)
  {
    hide Fields, Params, ParamsText, Message, ReadParams, Spaced, TakeFields, PlainKeys, MsgId;
    FieldsPlain(ev);
    var fields := Fields(ev);
    var rest := StructuredData(ev) + " " + Message(ev);
    var r := SyslogRecord(ev);
    assert r[..|r| - 1] == Spaced(fields, rest);
    if ' ' !in MsgId(ev) {
      forall i | 0 <= i < 6 ensures ' ' !in fields[i] {}
      TakeSpaced(fields, rest);
      ParamKeysPlain(ev);
      var params := ParamsText(Params(ev)) + "]" + (" " + Message(ev));
      ParamsReadBack(Params(ev), " " + Message(ev));
      SdIdPlain();
      CutAtPlain(SD_ID, params, ' ');
      assert rest[1..] == SD_ID + " " + params;
      assert (" " + Message(ev))[1..] == Message(ev);
    }
  }

  lemma SdIdPlain()
    ensures ' ' !in SD_ID
  {
  }

  lemma {:induction false} NewlinesOneLine(s: string)
    ensures OneLine(Newlines(s, " "))
    decreases |s|
  {
    hide Newlines;
    if s == "" {
      NewlinesEmpty();
    } else if |s| >= 2 && s[0] == '\r' && s[1] == '\n' {
      NewlinesHead(s, " ");
      NewlinesOneLine(s[2..]);
    } else {
      NewlinesHead(s, " ");
      NewlinesOneLine(s[1..]);
    }
  }

  lemma NewlinesEmpty()
    ensures Newlines("", " ") == ""
  {
  }

  lemma {:induction false} ParamsOneLine(pairs: Pairs)
    requires pairs != [] && PlainKeys(pairs)
    ensures OneLine(ParamsText(pairs))
  {
    hide EscapeSdValue;
    SdValue(pairs[0].1);
    if |pairs| > 1 { ParamsOneLine(pairs[1..]); }
  }

  lemma {:induction false} SpacedOneLine(fields: seq<string>, rest: string)
    ensures OneLine(Spaced(fields, rest)) <==> OneLine(rest) && forall i :: 0 <= i < |fields| ==> OneLine(fields[i])
  {
    hide OneLine;
    if fields != [] {
      SpacedOneLine(fields[1..], rest);
      OneLineAppend(fields[0], " ");
      OneLineAppend(fields[0] + " ", Spaced(fields[1..], rest));
      SpaceOneLine();
      assert (forall i :: 0 <= i < |fields| ==> OneLine(fields[i]))
        <==> OneLine(fields[0]) && forall i :: 0 <= i < |fields[1..]| ==> OneLine(fields[1..][i]) by {
        assert forall i :: 1 <= i < |fields| ==> fields[i] == fields[1..][i - 1];
      }
    }
  }

  lemma SpaceOneLine()
    ensures OneLine(" ")
  {
  }

  /** A record is one line exactly when its time and kind are: every other field is escaped or flattened. */
  lemma SyslogIsOneRecord(ev: Event)
    ensures IsOneRecord(SyslogRecord(ev)) <==> OneLine(ev.timestamp) && OneLine(ev.kind)
  {
    hide Fields, Params, ParamsText, Message, Spaced;
    var rest := StructuredData(ev) + " " + Message(ev);
    var r := SyslogRecord(ev);
    assert r[..|r| - 1] == Spaced(Fields(ev), rest);
    ParamKeysPlain(ev);
    ParamsOneLine(Params(ev));
    MessageOneLine(ev);
    assert OneLine(SD_ID);
    assert OneLine(rest);
    SpacedOneLine(Fields(ev), rest);
    FieldsPlain(ev);
    assert OneLine(MsgId(ev)) <==> OneLine(ev.kind);
  }

  lemma MessageOneLine(ev: Event)
    ensures OneLine(Message(ev))
  {
    NewlinesOneLine(if ev.message != "" then ev.message else ev.title);
  }

  // ------------------------------------------------------------------ the records this program writes

  /** The kinds an event is given. */
  const KINDS := {"threat", "recommendation", "posture", "traffic"}

  /** A UTC time by its parts. */
  datatype Clock = Clock(year: nat, month: nat, day: nat, hour: nat, minute: nat, second: nat, millis: nat)

  function Padded(n: nat, width: nat): string
    decreases width
  {
    if |Decimal(n)| >= width then Decimal(n) else "0" + Padded(n, width - 1)
  }

  /** `iso_z`. */
  function TimeText(t: Clock): string
  {
    Padded(t.year, 4) + "-" + Padded(t.month, 2) + "-" + Padded(t.day, 2) + "T" + Padded(t.hour, 2) + ":"
    + Padded(t.minute, 2) + ":" + Padded(t.second, 2) + "." + Padded(t.millis, 3) + "Z"
  }

  lemma {:induction false} PaddedPlain(n: nat, width: nat)
    ensures ' ' !in Padded(n, width) && OneLine(Padded(n, width))
    decreases width
  {
    hide Decimal;
    DecimalPlain(n);
    if |Decimal(n)| < width { PaddedPlain(n, width - 1); }
  }

  lemma PlainAppend(a: string, b: string)
    requires ' ' !in a && OneLine(a) && ' ' !in b && OneLine(b)
    ensures ' ' !in a + b && OneLine(a + b)
  {
    OneLineAppend(a, b);
  }

  lemma PartPlain(n: nat, width: nat, mark: string)
    requires ' ' !in mark && OneLine(mark)
    ensures ' ' !in Padded(n, width) + mark && OneLine(Padded(n, width) + mark)
  {
    PaddedPlain(n, width);
    PlainAppend(Padded(n, width), mark);
  }

  lemma TimeTextPlain(t: Clock)
    ensures ' ' !in TimeText(t) && OneLine(TimeText(t))
  {
    hide Padded, OneLine;
    MarksPlain();
    PartPlain(t.year, 4, "-");
    PartPlain(t.month, 2, "-");
    PartPlain(t.day, 2, "T");
    PartPlain(t.hour, 2, ":");
    PartPlain(t.minute, 2, ":");
    PartPlain(t.second, 2, ".");
    PartPlain(t.millis, 3, "Z");
    var a := Padded(t.year, 4) + "-" + (Padded(t.month, 2) + "-");
    var b := a + (Padded(t.day, 2) + "T");
    var c := b + (Padded(t.hour, 2) + ":");
    var d := c + (Padded(t.minute, 2) + ":");
    var e := d + (Padded(t.second, 2) + ".");
    PlainAppend(Padded(t.year, 4) + "-", Padded(t.month, 2) + "-");
    PlainAppend(a, Padded(t.day, 2) + "T");
    PlainAppend(b, Padded(t.hour, 2) + ":");
    PlainAppend(c, Padded(t.minute, 2) + ":");
    PlainAppend(d, Padded(t.second, 2) + ".");
    PlainAppend(e, Padded(t.millis, 3) + "Z");
    assert TimeText(t) == e + (Padded(t.millis, 3) + "Z");
  }

  lemma MarksPlain()
    ensures forall mark :: mark in {"-", "T", ":", ".", "Z"} ==> ' ' !in mark && OneLine(mark)
  {
  }

  lemma KindsPlain(kind: string)
    requires kind in KINDS
    ensures ' ' !in kind && OneLine(kind)
  {
  }

  /** Every syslog record this program writes is one line and reads back: its events have one of four kinds, and
      their time is always formatted alike. Whatever the other fields hold does not matter. */
  lemma ProgramRecordsReadBack(ev: Event, t: Clock)
    requires ev.kind in KINDS && ev.timestamp == TimeText(t)
    ensures var r := SyslogRecord(ev); IsOneRecord(r) && ReadSyslog(r[..|r| - 1]) == Some(SyslogMeaning(ev))
  {
    hide SyslogRecord, SyslogMeaning, ReadSyslog, IsOneRecord, TimeText, KINDS;
    TimeTextPlain(t);
    KindsPlain(ev.kind);
    SyslogIsOneRecord(ev);
    SyslogReadsBack(ev);
  }
}

/** What a reader gets from CEF and syslog records, told from the event's own fields. */
module SiemMeaning {
  import opened Wrappers
  import opened Text
  import opened SiemEscape
  import opened SiemRecords
  import opened SiemSyslog

  /** The value of a key, if it is there. */
  function ValueOf(pairs: Pairs, key: string): Option<string>
  {
    if pairs == [] then None
    else if pairs[0].0 == key then Some(pairs[0].1)
    else ValueOf(pairs[1..], key)
  }

  predicate DistinctKeys(pairs: Pairs) { forall i, j :: 0 <= i < j < |pairs| ==> pairs[i].0 != pairs[j].0 }

  /** A field is said when it is not empty, up to line-break normalisation. */
  function Said(value: string): Option<string> { if value == "" then None else Some(Norm(value)) }

  lemma {:induction false} ValueAppend(a: Pairs, b: Pairs, key: string)
    ensures ValueOf(a + b, key) == if ValueOf(a, key).Some? then ValueOf(a, key) else ValueOf(b, key)
  {
    if a == [] {
      assert a + b == b;
    } else {
      ValueAppend(a[1..], b, key);
      assert (a + b)[1..] == a[1..] + b;
    }
  }

  lemma {:induction false} NormAppend(a: Pairs, b: Pairs)
    ensures NormPairs(a + b) == NormPairs(a) + NormPairs(b)
  {
    if a == [] {
      assert a + b == b;
    } else {
      NormAppend(a[1..], b);
      assert (a + b)[1..] == a[1..] + b;
    }
  }

  lemma GivenValue(k: string, value: string, key: string)
    ensures ValueOf(NormPairs(Given(k, value)), key) == if k == key then Said(value) else None
  {
  }

  lemma OneValue(k: string, value: string, key: string)
    ensures ValueOf(NormPairs([(k, value)]), key) == if k == key then Some(Norm(value)) else None
  {
    assert [(k, value)][1..] == [];
  }

  lemma Part(a: Pairs, b: Pairs, key: string)
    ensures var x, y := ValueOf(NormPairs(a), key), ValueOf(NormPairs(b), key);
            ValueOf(NormPairs(a + b), key) == if x.Some? then x else y
  {
    NormAppend(a, b);
    ValueAppend(NormPairs(a), NormPairs(b), key);
  }

  lemma {:induction false} SameKeys(pairs: Pairs)
    ensures |NormPairs(pairs)| == |pairs|
    ensures forall i :: 0 <= i < |pairs| ==> NormPairs(pairs)[i].0 == pairs[i].0
  {
    if pairs != [] { SameKeys(pairs[1..]); }
  }

  function One(value: string): nat { if value == "" then 0 else 1 }

  // ------------------------------------------------------------------ CEF

  const CEF_KEYS := {"src", "dst", "proto", "dproc", "cs1", "cs1Label", "cat", "rt", "msg"}

  /** The pairs of a record say the event's fields, each under its key, and nothing else. */
  predicate CefSays(pairs: Pairs, ev: Event)
  {
    && ValueOf(pairs, "src") == Said(ev.sourceIp) && ValueOf(pairs, "dst") == Said(ev.destinationIp)
    && ValueOf(pairs, "proto") == Said(ev.protocol) && ValueOf(pairs, "dproc") == Said(ev.processName)
    && ValueOf(pairs, "cs1") == Said(ev.techniqueId)
    && ValueOf(pairs, "cs1Label") == (if ev.techniqueId == "" then None else Some("mitreTechniqueId"))
    && ValueOf(pairs, "cat") == Some(Norm(ev.category)) && ValueOf(pairs, "rt") == Some(Norm(ev.timestamp))
    && ValueOf(pairs, "msg") == Said(ev.message)
    && (forall i :: 0 <= i < |pairs| ==> pairs[i].0 in CEF_KEYS)
    && |pairs| == One(ev.sourceIp) + One(ev.destinationIp) + One(ev.protocol) + One(ev.processName)
                  + 2 * One(ev.techniqueId) + 2 + One(ev.message)
  }

  predicate CefHeaderSays(header: seq<string>, ev: Event)
  {
    && |header| == 7 && header[..4] == ["CEF:0", "NetAudit", "NetAudit", "1.0"]
    && header[4] == Norm(ev.category) && header[5] == Norm(ev.title)
    && header[6] == (if ev.severity == "critical" then "10" else if ev.severity == "high" then "8"
                     else if ev.severity == "medium" then "5" else if ev.severity == "low" then "3" else "1")
  }

  /** Every CEF record is one line, and what a reader gets from it is the event: category, title and severity in the
      header, the other fields in the extension. */
  lemma CefSaysEvent(ev: Event)
    ensures var r := CefRecord(ev);
            var read := ReadCef(r[..|r| - 1]);
            IsOneRecord(r) && read.Some? && CefHeaderSays(read.value.header, ev) && CefSays(read.value.pairs, ev)
  {
    hide CefRecord, ReadCef, IsOneRecord, CefPairs, NormPairs, Norm, CefSays;
    CefReadsBack(ev);
    Numbers();
    CefPairsSay(ev);
  }

  lemma Numbers()
    ensures Decimal(10) == "10" && Decimal(8) == "8" && Decimal(5) == "5" && Decimal(3) == "3" && Decimal(1) == "1"
  {
    assert Decimal(1) == "1";
  }

  lemma CefPairsSay(ev: Event)
    ensures CefSays(NormPairs(CefPairs(ev)), ev)
  {
    hide NormPairs, Norm, ValueOf, Said, One;
    SameKeys(CefPairs(ev));
    CefKeys(ev);
    LabelNorm();
    CefValue(ev, "src");
    CefValue(ev, "dst");
    CefValue(ev, "proto");
    CefValue(ev, "dproc");
    CefValue(ev, "cs1");
    CefValue(ev, "cs1Label");
    CefValue(ev, "cat");
    CefValue(ev, "rt");
    CefValue(ev, "msg");
  }

  lemma LabelNorm()
    ensures Norm("mitreTechniqueId") == "mitreTechniqueId"
  {
    hide Norm;
    NormOfOneLine("mitreTechniqueId");
  }

  lemma CefKeys(ev: Event)
    ensures forall i :: 0 <= i < |CefPairs(ev)| ==> CefPairs(ev)[i].0 in CEF_KEYS
    ensures |CefPairs(ev)| == One(ev.sourceIp) + One(ev.destinationIp) + One(ev.protocol) + One(ev.processName)
                              + 2 * One(ev.techniqueId) + 2 + One(ev.message)
  {
  }

  lemma TechniqueValue(id: string, key: string)
    ensures var pairs := if id == "" then [] else [("cs1", id), ("cs1Label", "mitreTechniqueId")];
            ValueOf(NormPairs(pairs), key) ==
            if id == "" then None else if key == "cs1" then Some(Norm(id))
            else if key == "cs1Label" then Some(Norm("mitreTechniqueId")) else None
  {
    hide Norm;
    if id != "" {
      assert [("cs1", id), ("cs1Label", "mitreTechniqueId")] == [("cs1", id)] + [("cs1Label", "mitreTechniqueId")];
      Part([("cs1", id)], [("cs1Label", "mitreTechniqueId")], key);
      OneValue("cs1", id, key);
      OneValue("cs1Label", "mitreTechniqueId", key);
    }
  }

  lemma CefValue(ev: Event, key: string)
    ensures ValueOf(NormPairs(CefPairs(ev)), key) ==
            if key == "src" then Said(ev.sourceIp)
            else if key == "dst" then Said(ev.destinationIp)
            else if key == "proto" then Said(ev.protocol)
            else if key == "dproc" then Said(ev.processName)
            else if key == "cs1" then Said(ev.techniqueId)
            else if key == "cs1Label" then (if ev.techniqueId == "" then None else Some(Norm("mitreTechniqueId")))
            else if key == "cat" then Some(Norm(ev.category))
            else if key == "rt" then Some(Norm(ev.timestamp))
            else if key == "msg" then Said(ev.message) else None
  {
    hide NormPairs, Norm, ValueOf, Given;
    var a := Given("src", ev.sourceIp);
    var b := a + Given("dst", ev.destinationIp);
    var c := b + Given("proto", ev.protocol);
    var d := c + Given("dproc", ev.processName);
    var technique := if ev.techniqueId == "" then [] else [("cs1", ev.techniqueId), ("cs1Label", "mitreTechniqueId")];
    var f := d + technique;
    var always := [("cat", ev.category)] + [("rt", ev.timestamp)];
    assert always == [("cat", ev.category), ("rt", ev.timestamp)];
    var g := f + always;
    Part(a, Given("dst", ev.destinationIp), key);
    Part(b, Given("proto", ev.protocol), key);
    Part(c, Given("dproc", ev.processName), key);
    Part(d, technique, key);
    Part(f, always, key);
    Part([("cat", ev.category)], [("rt", ev.timestamp)], key);
    Part(g, Given("msg", ev.message), key);
    GivenValue("src", ev.sourceIp, key);
    GivenValue("dst", ev.destinationIp, key);
    GivenValue("proto", ev.protocol, key);
    GivenValue("dproc", ev.processName, key);
    TechniqueValue(ev.techniqueId, key);
    OneValue("cat", ev.category, key);
    OneValue("rt", ev.timestamp, key);
    GivenValue("msg", ev.message, key);
    assert CefPairs(ev) == g + Given("msg", ev.message);
  }

  // ------------------------------------------------------------------ syslog

  const SYSLOG_KEYS := {"category", "title", "sourceIp", "destinationIp", "protocol", "processName", "techniqueId"}

  predicate SyslogSays(pairs: Pairs, ev: Event)
  {
    && ValueOf(pairs, "category") == Some(Norm(ev.category)) && ValueOf(pairs, "title") == Some(Norm(ev.title))
    && ValueOf(pairs, "sourceIp") == Said(ev.sourceIp) && ValueOf(pairs, "destinationIp") == Said(ev.destinationIp)
    && ValueOf(pairs, "protocol") == Said(ev.protocol) && ValueOf(pairs, "processName") == Said(ev.processName)
    && ValueOf(pairs, "techniqueId") == Said(ev.techniqueId)
    && (forall i :: 0 <= i < |pairs| ==> pairs[i].0 in SYSLOG_KEYS)
    && |pairs| == 2 + One(ev.sourceIp) + One(ev.destinationIp) + One(ev.protocol) + One(ev.processName)
                  + One(ev.techniqueId)
  }

  /** Priority of facility 13 and version, time, host, application, no process id, and the kind. */
  predicate SyslogHeaderSays(fields: seq<string>, ev: Event)
  {
    && |fields| == 6
    && fields[0] == (if ev.severity == "critical" then "<106>1" else if ev.severity == "high" then "<107>1"
                     else if ev.severity == "medium" then "<108>1" else if ev.severity == "low" then "<109>1"
                     else "<110>1")
    && fields[1] == ev.timestamp && fields[2..5] == ["netaudit", "netaudit", "-"] && fields[5] == ev.kind
  }

  /** A text with its line breaks as spaces, a carriage return with its line feed as one. */
  function Flat(s: string): string
  {
    if s == "" then ""
    else if |s| >= 2 && s[0] == '\r' && s[1] == '\n' then " " + Flat(s[2..])
    else (if s[0] == '\r' || s[0] == '\n' then " " else [s[0]]) + Flat(s[1..])
  }

  /** Every syslog record the program writes is one line, and what a reader gets from it is the event. */
  lemma SyslogSaysEvent(ev: Event, t: Clock)
    requires ev.kind in KINDS && ev.timestamp == TimeText(t)
    ensures var r := SyslogRecord(ev);
            var read := ReadSyslog(r[..|r| - 1]);
            && IsOneRecord(r) && read.Some? && SyslogHeaderSays(read.value.fields, ev)
            && read.value.sdId == "netaudit@32473" && SyslogSays(read.value.params, ev)
            && read.value.message == Flat(if ev.message == "" then ev.title else ev.message)
  {
    hide SyslogRecord, ReadSyslog, IsOneRecord, Params, NormPairs, SyslogSays, TimeText, Flat;
    ProgramRecordsReadBack(ev, t);
    SyslogPairsSay(ev);
    Priorities();
    NewlinesAreFlat(if ev.message == "" then ev.title else ev.message);
  }

  lemma Priorities()
    ensures Decimal(106) == "106" && Decimal(107) == "107" && Decimal(108) == "108"
    ensures Decimal(109) == "109" && Decimal(110) == "110"
  {
    assert Decimal(1) == "1" && Decimal(10) == "10" && Decimal(11) == "11";
  }

  lemma {:induction false} NewlinesAreFlat(s: string)
    ensures Newlines(s, " ") == Flat(s)
    decreases |s|
  {
    hide Newlines;
    if s == "" {
      NewlinesEmpty();
    } else {
      NewlinesHead(s, " ");
      if |s| >= 2 && s[0] == '\r' && s[1] == '\n' { NewlinesAreFlat(s[2..]); } else { NewlinesAreFlat(s[1..]); }
    }
  }

  lemma SyslogPairsSay(ev: Event)
    ensures SyslogSays(NormPairs(Params(ev)), ev)
  {
    hide NormPairs, Norm, ValueOf, Said, One;
    SameKeys(Params(ev));
    SyslogKeys(ev);
    SyslogValue(ev, "category");
    SyslogValue(ev, "title");
    SyslogValue(ev, "sourceIp");
    SyslogValue(ev, "destinationIp");
    SyslogValue(ev, "protocol");
    SyslogValue(ev, "processName");
    SyslogValue(ev, "techniqueId");
  }

  lemma SyslogKeys(ev: Event)
    ensures forall i :: 0 <= i < |Params(ev)| ==> Params(ev)[i].0 in SYSLOG_KEYS
    ensures |Params(ev)| == 2 + One(ev.sourceIp) + One(ev.destinationIp) + One(ev.protocol) + One(ev.processName)
                            + One(ev.techniqueId)
  {
  }

  lemma SyslogValue(ev: Event, key: string)
    ensures ValueOf(NormPairs(Params(ev)), key) ==
            if key == "category" then Some(Norm(ev.category))
            else if key == "title" then Some(Norm(ev.title))
            else if key == "sourceIp" then Said(ev.sourceIp)
            else if key == "destinationIp" then Said(ev.destinationIp)
            else if key == "protocol" then Said(ev.protocol)
            else if key == "processName" then Said(ev.processName)
            else if key == "techniqueId" then Said(ev.techniqueId) else None
  {
    hide NormPairs, Norm, ValueOf, Given;
    var a := [("category", ev.category)] + [("title", ev.title)];
    assert a == [("category", ev.category), ("title", ev.title)];
    var b := a + Given("sourceIp", ev.sourceIp);
    var c := b + Given("destinationIp", ev.destinationIp);
    var d := c + Given("protocol", ev.protocol);
    var f := d + Given("processName", ev.processName);
    Part([("category", ev.category)], [("title", ev.title)], key);
    Part(a, Given("sourceIp", ev.sourceIp), key);
    Part(b, Given("destinationIp", ev.destinationIp), key);
    Part(c, Given("protocol", ev.protocol), key);
    Part(d, Given("processName", ev.processName), key);
    Part(f, Given("techniqueId", ev.techniqueId), key);
    OneValue("category", ev.category, key);
    OneValue("title", ev.title, key);
    GivenValue("sourceIp", ev.sourceIp, key);
    GivenValue("destinationIp", ev.destinationIp, key);
    GivenValue("protocol", ev.protocol, key);
    GivenValue("processName", ev.processName, key);
    GivenValue("techniqueId", ev.techniqueId, key);
    assert Params(ev) == f + Given("techniqueId", ev.techniqueId);
  }
}

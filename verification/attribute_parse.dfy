/** The parsers of the `sources` and `subtitles` attributes of the
    `<nc-player>` element (`parseSources` and `parseSubtitles` of the web
    component). Both cut the attribute at `;;` into one segment per entry and
    read each segment with the same character scanner: a field name up to the
    first `=`, then a value up to a comma that is followed by `\w+=`. They
    differ in what the scanner does at such a comma and at the end:
    `parseSubtitles` assigns the field and starts afresh, and assigns the last
    field at the end; `parseSources` assigns the field but keeps the name and
    value it has collected, and never assigns the last one. */
module AttributeParse {
  import opened Js
  import opened Text

  // ---------------------------------------------------------------------------
  // The scanner

  /** `/^\w+=/.test(t)`: `t` starts with one or more word characters and an
      `=`. */
  predicate Lookahead(t: string) {
    |t| >= 2 && IsWordChar(t[0]) && (t[1] == '=' || Lookahead(t[1..]))
  }

  datatype Stage = ReadingName | ReadingValue

  /** One field as the scanner hands it over: the raw name and the untrimmed
      value. */
  datatype Assignment = Assignment(name: string, value: string)

  /** The scanner's variables (`stage`, `fname`, `value`) and the assignments
      it has made so far. */
  datatype Scan = Scan(stage: Stage, name: string, value: string, made: seq<Assignment>)

  const Start := Scan(ReadingName, "", "", [])

  /** What the scanner does at a comma followed by `\w+=`: it assigns the
      field it has read and goes back to reading a name; with `reset` (as
      `parseSubtitles` does) it also empties the name and the value. */
  function Boundary(sc: Scan, reset: bool): (r: Scan)
    ensures r.stage == ReadingName && r.made == sc.made + [Assignment(sc.name, sc.value)]
    ensures reset ==> r.name == "" && r.value == ""
    ensures !reset ==> r.name == sc.name && r.value == sc.value
  {
    if reset then Scan(ReadingName, "", "", sc.made + [Assignment(sc.name, sc.value)])
    else Scan(ReadingName, sc.name, sc.value, sc.made + [Assignment(sc.name, sc.value)])
  }

  /** One iteration of the loop on character `c`, with `following` the rest
      of the segment. */
  function Step(c: char, following: string, sc: Scan, reset: bool): Scan {
    match sc.stage
    case ReadingName =>
      if c == '=' then sc.(stage := ReadingValue) else sc.(name := sc.name + [c])
    case ReadingValue =>
      if c == ',' && Lookahead(following) then Boundary(sc, reset)
      else sc.(value := sc.value + [c])
  }

  /** The loop over the characters of `t`. */
  function ScanText(t: string, sc: Scan, reset: bool): Scan
    decreases |t|
  {
    if t == [] then sc else ScanText(t[1..], Step(t[0], t[1..], sc, reset), reset)
  }

  /** The fields a segment assigns, in order: with `flush` (as
      `parseSubtitles` does) the field being read when the segment ends is
      assigned as well. */
  function Assignments(segment: string, reset: bool, flush: bool): seq<Assignment> {
    var sc := ScanText(segment, Start, reset);
    if flush then sc.made + [Assignment(sc.name, sc.value)] else sc.made
  }

  /** The scanner written as the source's indexed loop; it computes the
      same state as `ScanText`. */
  method ScanLoop(segment: string, reset: bool) returns (sc: Scan)
    ensures sc == ScanText(segment, Start, reset)
  {
    sc := Start;
    var i := 0;
    while i < |segment|
      invariant 0 <= i <= |segment|
      invariant ScanText(segment[i..], sc, reset) == ScanText(segment, Start, reset)
    {
      assert segment[i..][1..] == segment[i + 1..];
      sc := Step(segment[i], segment[i + 1..], sc, reset);
      i := i + 1;
    }
  }

  // ---------------------------------------------------------------------------
  // The reference reading: a segment written as `name=value` pieces

  /** `name=value` */
  function Piece(a: Assignment): string {
    a.name + "=" + a.value
  }

  /** The pieces joined with commas. */
  function Pieces(ps: seq<Assignment>): string
    requires |ps| >= 1
  {
    if |ps| == 1 then Piece(ps[0]) else Piece(ps[0]) + "," + Pieces(ps[1..])
  }

  /** Pieces the scanner reads back as written: no name holds `=`, every name
      after the first is a non-empty word (so the comma before it is seen as a
      boundary) and no value holds a comma. */
  predicate WellFormed(ps: seq<Assignment>) {
    && |ps| >= 1
    && (forall k :: 0 <= k < |ps| ==> '=' !in ps[k].name && ',' !in ps[k].value)
    && (forall k :: 1 <= k < |ps| ==> |ps[k].name| >= 1 && IsWord(ps[k].name))
  }

  /** The scanner state the reference reading predicts after the pieces `ps`,
      starting from `sc` in the name stage. */
  function Expected(sc: Scan, ps: seq<Assignment>, reset: bool): Scan
    requires |ps| >= 1
    decreases |ps|
  {
    var read := Scan(ReadingValue, sc.name + ps[0].name, sc.value + ps[0].value, sc.made);
    if |ps| == 1 then read else Expected(Boundary(read, reset), ps[1..], reset)
  }

  lemma {:induction false} ScanName(n: string, t: string, sc: Scan, reset: bool)
    requires sc.stage == ReadingName && '=' !in n
    ensures ScanText(n + t, sc, reset) == ScanText(t, sc.(name := sc.name + n), reset)
    decreases |n|
  {
    if n == [] {
      assert n + t == t;
      assert sc.name + n == sc.name;
    } else {
      assert (n + t)[1..] == n[1..] + t;
      var next := sc.(name := sc.name + [n[0]]);
      assert n[0] != '=' by { assert n[0] == n[0]; }
      ScanName(n[1..], t, next, reset);
      assert next.name + n[1..] == sc.name + n;
    }
  }

  lemma {:induction false} ScanValue(v: string, t: string, sc: Scan, reset: bool)
    requires sc.stage == ReadingValue && ',' !in v
    ensures ScanText(v + t, sc, reset) == ScanText(t, sc.(value := sc.value + v), reset)
    decreases |v|
  {
    if v == [] {
      assert v + t == t;
      assert sc.value + v == sc.value;
    } else {
      assert (v + t)[1..] == v[1..] + t;
      var next := sc.(value := sc.value + [v[0]]);
      assert v[0] != ',' by { assert v[0] == v[0]; }
      ScanValue(v[1..], t, next, reset);
      assert next.value + v[1..] == sc.value + v;
    }
  }

  /** A comma in a value that is not followed by `\w+=` is an ordinary
      character of the value: the value is read on to its end. */
  lemma {:induction false} ScanValueCommas(v: string, t: string, sc: Scan, reset: bool)
    requires sc.stage == ReadingValue
    requires forall i :: 0 <= i < |v| && v[i] == ',' ==> !Lookahead(v[i + 1..] + t)
    ensures ScanText(v + t, sc, reset) == ScanText(t, sc.(value := sc.value + v), reset)
    decreases |v|
  {
    if v == [] {
      assert v + t == t;
      assert sc.value + v == sc.value;
    } else {
      assert (v + t)[1..] == v[1..] + t;
      assert v[0] == ',' ==> !Lookahead(v[1..] + t) by {
        assert v[0 + 1..] == v[1..];
      }
      var next := sc.(value := sc.value + [v[0]]);
      forall i | 0 <= i < |v[1..]| && v[1..][i] == ','
        ensures !Lookahead(v[1..][i + 1..] + t)
      {
        assert v[1..][i + 1..] == v[i + 1 + 1..];
      }
      ScanValueCommas(v[1..], t, next, reset);
      assert next.value + v[1..] == sc.value + v;
    }
  }

  /** A segment of one field whose value has commas, none followed by
      `\w+=`, keeps them in the value: the subtitle scanner assigns the
      whole value, while the source scanner, which assigns nothing at the
      end, assigns nothing at all. */
  lemma CommaStaysInValue(n: string, v: string)
    requires '=' !in n
    requires forall i :: 0 <= i < |v| && v[i] == ',' ==> !Lookahead(v[i + 1..])
    ensures Assignments(n + "=" + v, true, true) == [Assignment(n, v)]
    ensures Assignments(n + "=" + v, false, false) == []
  {
    forall reset: bool
      ensures ScanText(n + "=" + v, Start, reset) == Scan(ReadingValue, n, v, [])
    {
      var rest := "=" + v;
      assert n + "=" + v == n + rest;
      ScanName(n, rest, Start, reset);
      var named := Start.(name := "" + n);
      assert rest[1..] == v;
      var valued := named.(stage := ReadingValue);
      assert ScanText(rest, named, reset) == ScanText(v, valued, reset);
      assert v + [] == v;
      forall i | 0 <= i < |v| && v[i] == ','
        ensures !Lookahead(v[i + 1..] + [])
      {
        assert v[i + 1..] + [] == v[i + 1..];
      }
      ScanValueCommas(v, [], valued, reset);
      assert "" + n == n && "" + v == v;
    }
  }

  /** A non-empty word followed by `=` passes the lookahead. */
  lemma {:induction false} LookaheadWord(w: string, t: string)
    requires |w| >= 1 && IsWord(w)
    ensures Lookahead(w + "=" + t)
    decreases |w|
  {
    var s := w + "=" + t;
    assert s[0] == w[0];
    if |w| == 1 {
      assert s[1] == '=';
    } else {
      assert s[1..] == w[1..] + "=" + t;
      LookaheadWord(w[1..], t);
    }
  }

  /** The state after reading one piece. */
  function ReadPiece(sc: Scan, a: Assignment): Scan {
    Scan(ReadingValue, sc.name + a.name, sc.value + a.value, sc.made)
  }

  lemma ScanPiece(a: Assignment, rest: string, sc: Scan, reset: bool)
    requires sc.stage == ReadingName && '=' !in a.name && ',' !in a.value
    ensures ScanText(Piece(a) + rest, sc, reset) == ScanText(rest, ReadPiece(sc, a), reset)
  {
    var afterName := "=" + (a.value + rest);
    assert Piece(a) + rest == a.name + afterName;
    ScanName(a.name, afterName, sc, reset);
    var named := sc.(name := sc.name + a.name);
    assert afterName[1..] == a.value + rest;
    var valued := named.(stage := ReadingValue);
    assert ScanText(afterName, named, reset) == ScanText(a.value + rest, valued, reset);
    ScanValue(a.value, rest, valued, reset);
    assert valued.(value := valued.value + a.value) == ReadPiece(sc, a);
  }

  lemma ScanComma(t: string, sc: Scan, reset: bool)
    requires sc.stage == ReadingValue && Lookahead(t)
    ensures ScanText("," + t, sc, reset) == ScanText(t, Boundary(sc, reset), reset)
  {
    assert ("," + t)[1..] == t;
  }

  /** The comma before every piece but the first is a boundary. */
  lemma LookaheadPieces(ps: seq<Assignment>)
    requires WellFormed(ps) && |ps| >= 2
    ensures Lookahead(Pieces(ps[1..]))
  {
    var b := ps[1];
    var after := if |ps| == 2 then "" else "," + Pieces(ps[2..]);
    assert ps[1..][0] == b;
    assert Pieces(ps[1..]) == b.name + "=" + (b.value + after) by {
      if |ps| > 2 {
        assert ps[1..][1..] == ps[2..];
      }
    }
    LookaheadWord(b.name, b.value + after);
  }

  /** Scanning well-formed pieces ends in the state the reference reading
      predicts. */
  lemma {:induction false} ScanPieces(ps: seq<Assignment>, sc: Scan, reset: bool)
    requires WellFormed(ps) && sc.stage == ReadingName
    ensures ScanText(Pieces(ps), sc, reset) == Expected(sc, ps, reset)
    decreases |ps|
  {
    var a := ps[0];
    var read := ReadPiece(sc, a);
    if |ps| == 1 {
      assert Pieces(ps) == Piece(a) + "";
      ScanPiece(a, "", sc, reset);
    } else {
      var tail := Pieces(ps[1..]);
      assert ScanText(Pieces(ps), sc, reset) == ScanText("," + tail, read, reset) by {
        assert Pieces(ps) == Piece(a) + ("," + tail);
        ScanPiece(a, "," + tail, sc, reset);
      }
      assert ScanText("," + tail, read, reset) == ScanText(tail, Boundary(read, reset), reset) by {
        LookaheadPieces(ps);
        ScanComma(tail, read, reset);
      }
      assert WellFormed(ps[1..]);
      ScanPieces(ps[1..], Boundary(read, reset), reset);
    }
  }

  /** With reset and flush (the subtitle scanner) the assignments are the
      pieces themselves. */
  lemma {:induction false} ExpectedReset(ps: seq<Assignment>, made: seq<Assignment>)
    requires |ps| >= 1
    ensures var e := Expected(Scan(ReadingName, "", "", made), ps, true);
      e.made + [Assignment(e.name, e.value)] == made + ps
    decreases |ps|
  {
    var sc := Scan(ReadingName, "", "", made);
    var read := Scan(ReadingValue, "" + ps[0].name, "" + ps[0].value, made);
    assert "" + ps[0].name == ps[0].name && "" + ps[0].value == ps[0].value;
    if |ps| == 1 {
      assert made + ps == made + [ps[0]];
    } else {
      assert Boundary(read, true) == Scan(ReadingName, "", "", made + [ps[0]]);
      ExpectedReset(ps[1..], made + [ps[0]]);
      assert made + [ps[0]] + ps[1..] == made + ps;
    }
  }

  /** The cumulative reading: the k-th assignment has the names and the
      values of the first k + 1 pieces run together. */
  function Cumulative(ps: seq<Assignment>, name: string, value: string): (r: seq<Assignment>)
    ensures |r| == |ps|
  {
    if ps == [] then []
    else
      var a := Assignment(name + ps[0].name, value + ps[0].value);
      [a] + Cumulative(ps[1..], a.name, a.value)
  }

  /** Without reset and flush (the source scanner) the assignments are the
      cumulative readings of every piece but the last. */
  lemma {:induction false} ExpectedKeep(ps: seq<Assignment>, sc: Scan)
    requires |ps| >= 1 && sc.stage == ReadingName
    ensures Expected(sc, ps, false).made == sc.made + Cumulative(ps, sc.name, sc.value)[..|ps| - 1]
    decreases |ps|
  {
    var read := Scan(ReadingValue, sc.name + ps[0].name, sc.value + ps[0].value, sc.made);
    var c := Cumulative(ps, sc.name, sc.value);
    if |ps| == 1 {
      assert c[..0] == [];
    } else {
      var next := Boundary(read, false);
      ExpectedKeep(ps[1..], next);
      var a := Assignment(read.name, read.value);
      assert c == [a] + Cumulative(ps[1..], a.name, a.value);
      assert c[..|ps| - 1] == [a] + Cumulative(ps[1..], a.name, a.value)[..|ps| - 2];
    }
  }

  /** The subtitle scanner reads well-formed pieces back exactly. */
  lemma SubtitleScannerReadsPieces(ps: seq<Assignment>)
    requires WellFormed(ps)
    ensures Assignments(Pieces(ps), true, true) == ps
  {
    ScanPieces(ps, Start, true);
    ExpectedReset(ps, []);
  }

  /** The source scanner reads well-formed pieces as the cumulative names and
      values of all the pieces but the last. */
  lemma SourceScannerReadsCumulative(ps: seq<Assignment>)
    requires WellFormed(ps)
    ensures Assignments(Pieces(ps), false, false) == Cumulative(ps, "", "")[..|ps| - 1]
  {
    ScanPieces(ps, Start, false);
    ExpectedKeep(ps, Start);
  }

  // ---------------------------------------------------------------------------
  // Subtitle tracks

  datatype SubtitleTrack = SubtitleTrack(id: string, src: string, labelText: string, srclang: string, isDefault: bool)

  const EmptyTrack := SubtitleTrack("", "", "", "", false)

  /** `value.trim()` applied to every assignment. */
  function TrimValues(fields: seq<Assignment>): (r: seq<Assignment>)
    ensures |r| == |fields|
    ensures forall k :: 0 <= k < |r| ==> r[k] == Assignment(fields[k].name, Trim(fields[k].value))
  {
    seq(|fields|, k requires 0 <= k < |fields| => Assignment(fields[k].name, Trim(fields[k].value)))
  }

  /** The `switch` of `assignParsed` on an already trimmed value: the value
      goes to the field of that name, `default` is true only for the text
      `true`, other names are ignored. */
  function AssignTrack(t: SubtitleTrack, a: Assignment): SubtitleTrack {
    match a.name
    case "id" => t.(id := a.value)
    case "src" => t.(src := a.value)
    case "label" => t.(labelText := a.value)
    case "srclang" => t.(srclang := a.value)
    case "default" => t.(isDefault := a.value == "true")
    case _ => t
  }

  function AssignAllTrack(t: SubtitleTrack, fields: seq<Assignment>): SubtitleTrack
    decreases |fields|
  {
    if fields == [] then t else AssignAllTrack(AssignTrack(t, fields[0]), fields[1..])
  }

  /** One `;;`-separated segment of the `subtitles` attribute: every
      assignment the scanner makes, trimmed, applied in order to the empty
      track. */
  function ParseTrack(segment: string): SubtitleTrack {
    AssignAllTrack(EmptyTrack, TrimValues(Assignments(segment, true, true)))
  }

  /** `parseSubtitles`: no attribute gives no tracks; otherwise one track per
      `;;`-separated segment, so even the empty attribute gives one (empty)
      track. */
  function ParseSubtitles(attr: Option<string>): (r: Option<seq<SubtitleTrack>>)
    ensures attr.None? <==> r.None?
    ensures attr.Some? ==> |r.value| == |Split(attr.value, ";;")| >= 1
  {
    match attr
    case None => None
    case Some(s) =>
      var segments := Split(s, ";;");
      Some(seq(|segments|, k requires 0 <= k < |segments| => ParseTrack(segments[k])))
  }

  /** A value the attribute syntax can carry unchanged: no surrounding white
      space (it would be trimmed), no comma and no semicolon. */
  predicate PlainValue(v: string) {
    IsTrimmed(v) && ',' !in v && ';' !in v
  }

  predicate PlainTrack(t: SubtitleTrack) {
    PlainValue(t.id) && PlainValue(t.src) && PlainValue(t.labelText) && PlainValue(t.srclang)
  }

  function DefaultText(b: bool): string {
    if b then "true" else "false"
  }

  function TrackFields(t: SubtitleTrack): seq<Assignment> {
    [Assignment("id", t.id)] + ([Assignment("src", t.src)] + ([Assignment("label", t.labelText)]
      + ([Assignment("srclang", t.srclang)] + [Assignment("default", DefaultText(t.isDefault))])))
  }

  /** A track written in the attribute syntax, fields in the order of the
      documented example. */
  function RenderTrack(t: SubtitleTrack): string {
    Pieces(TrackFields(t))
  }

  /** Trimming values `trim` leaves alone changes nothing. */
  lemma TrimValuesTrimmed(fields: seq<Assignment>)
    requires forall k :: 0 <= k < |fields| ==> IsTrimmed(fields[k].value)
    ensures TrimValues(fields) == fields
  {
    forall k | 0 <= k < |fields|
      ensures Trim(fields[k].value) == fields[k].value
    {
      TrimSpec(fields[k].value);
    }
  }

  lemma AssignChain(t: SubtitleTrack, a: Assignment, next: SubtitleTrack, rest: seq<Assignment>, r: SubtitleTrack)
    requires AssignTrack(t, a) == next && AssignAllTrack(next, rest) == r
    ensures AssignAllTrack(t, [a] + rest) == r
  {
    assert ([a] + rest)[1..] == rest;
  }

  /** Assigning the fields of a track to the empty track rebuilds it. */
  lemma AssignTrackFields(t: SubtitleTrack)
    ensures AssignAllTrack(EmptyTrack, TrackFields(t)) == t
  {
    var d := DefaultText(t.isDefault);
    var t1 := EmptyTrack.(id := t.id);
    var t2 := t1.(src := t.src);
    var t3 := t2.(labelText := t.labelText);
    var t4 := t3.(srclang := t.srclang);
    var r4 := [Assignment("default", d)];
    var r3 := [Assignment("srclang", t.srclang)] + r4;
    var r2 := [Assignment("label", t.labelText)] + r3;
    var r1 := [Assignment("src", t.src)] + r2;
    assert AssignAllTrack(t, []) == t;
    AssignChain(t4, Assignment("default", d), t, [], t);
    assert [Assignment("default", d)] + [] == r4;
    AssignChain(t3, Assignment("srclang", t.srclang), t4, r4, t);
    AssignChain(t2, Assignment("label", t.labelText), t3, r3, t);
    AssignChain(t1, Assignment("src", t.src), t2, r2, t);
    AssignChain(EmptyTrack, Assignment("id", t.id), t1, r1, t);
  }

  lemma WordNames()
    ensures IsWord("id") && IsWord("src") && IsWord("label") && IsWord("srclang") && IsWord("default")
  {
    assert IsWord("id");
    assert IsWord("src");
    assert IsWord("label");
    assert IsWord("srclang");
    assert IsWord("default");
  }

  /** The five field names: words without `=` or `;`. */
  lemma FieldNames()
    ensures forall k :: 0 <= k < |TrackFields(EmptyTrack)| ==>
      var n := TrackFields(EmptyTrack)[k].name; |n| >= 1 && IsWord(n) && '=' !in n && ';' !in n
  {
    var ps := TrackFields(EmptyTrack);
    assert ps[0].name == "id" && ps[1].name == "src" && ps[2].name == "label";
    assert ps[3].name == "srclang" && ps[4].name == "default";
    WordNames();
  }

  lemma TrackFieldNames(t: SubtitleTrack)
    ensures forall k :: 0 <= k < |TrackFields(t)| ==> TrackFields(t)[k].name == TrackFields(EmptyTrack)[k].name
  {
  }

  lemma TrackFieldValues(t: SubtitleTrack)
    requires PlainTrack(t)
    ensures forall k :: 0 <= k < |TrackFields(t)| ==> ',' !in TrackFields(t)[k].value && ';' !in TrackFields(t)[k].value
  {
    var ps := TrackFields(t);
    var d := DefaultText(t.isDefault);
    assert ',' !in d && ';' !in d;
    forall k | 0 <= k < |ps|
      ensures ',' !in ps[k].value && ';' !in ps[k].value
    {
      assert ps[k].value in {t.id, t.src, t.labelText, t.srclang, d};
    }
  }

  lemma TrackFieldsWellFormed(t: SubtitleTrack)
    requires PlainTrack(t)
    ensures WellFormed(TrackFields(t))
    ensures forall k :: 0 <= k < |TrackFields(t)| ==> ';' !in TrackFields(t)[k].name && ';' !in TrackFields(t)[k].value
  {
    FieldNames();
    TrackFieldNames(t);
    TrackFieldValues(t);
  }

  lemma TrackFieldsTrimmed(t: SubtitleTrack)
    requires PlainTrack(t)
    ensures TrimValues(TrackFields(t)) == TrackFields(t)
  {
    assert IsTrimmed(DefaultText(t.isDefault));
    TrimValuesTrimmed(TrackFields(t));
  }

  /** A plain track written in the attribute syntax reads back as itself. */
  lemma ParseRenderTrack(t: SubtitleTrack)
    requires PlainTrack(t)
    ensures ParseTrack(RenderTrack(t)) == t
  {
    var ps := TrackFields(t);
    assert Assignments(RenderTrack(t), true, true) == ps by {
      TrackFieldsWellFormed(t);
      SubtitleScannerReadsPieces(ps);
    }
    assert TrimValues(ps) == ps by {
      TrackFieldsTrimmed(t);
    }
    AssignTrackFields(t);
  }

  /** Every character of a rendered plain track is outside the value or one
      of the fixed names, `=` and `,`, so it holds no semicolon. */
  lemma {:induction false} NoSemicolonInPieces(ps: seq<Assignment>)
    requires |ps| >= 1
    requires forall k :: 0 <= k < |ps| ==> ';' !in ps[k].name && ';' !in ps[k].value
    ensures ';' !in Pieces(ps)
    decreases |ps|
  {
    if |ps| > 1 {
      NoSemicolonInPieces(ps[1..]);
    }
  }

  function RenderTracks(ts: seq<SubtitleTrack>): string
    requires |ts| >= 1
  {
    Join(seq(|ts|, k requires 0 <= k < |ts| => RenderTrack(ts[k])), ";;")
  }

  lemma RenderTrackNoSemicolon(t: SubtitleTrack)
    requires PlainTrack(t)
    ensures ';' !in RenderTrack(t)
  {
    TrackFieldsWellFormed(t);
    NoSemicolonInPieces(TrackFields(t));
  }

  /** Writing plain tracks in the attribute syntax and parsing the attribute
      gives the tracks back. */
  lemma ParseRenderTracks(ts: seq<SubtitleTrack>)
    requires |ts| >= 1 && forall k :: 0 <= k < |ts| ==> PlainTrack(ts[k])
    ensures ParseSubtitles(Some(RenderTracks(ts))) == Some(ts)
  {
    SplitRenderTracks(ts);
    ParseSplitTracks(RenderTracks(ts), ts);
  }

  function TrackTexts(ts: seq<SubtitleTrack>): seq<string> {
    seq(|ts|, k requires 0 <= k < |ts| => RenderTrack(ts[k]))
  }

  lemma SplitRenderTracks(ts: seq<SubtitleTrack>)
    requires |ts| >= 1 && forall k :: 0 <= k < |ts| ==> PlainTrack(ts[k])
    ensures Split(RenderTracks(ts), ";;") == TrackTexts(ts)
  {
    var parts := TrackTexts(ts);
    var sep := ";;";
    forall k | 0 <= k < |parts|
      ensures sep[0] !in parts[k]
    {
      RenderTrackNoSemicolon(ts[k]);
    }
    assert RenderTracks(ts) == Join(parts, sep);
    SplitJoin(parts, sep);
  }

  lemma ParseSplitTracks(text: string, ts: seq<SubtitleTrack>)
    requires Split(text, ";;") == TrackTexts(ts)
    requires forall k :: 0 <= k < |ts| ==> PlainTrack(ts[k])
    ensures ParseSubtitles(Some(text)) == Some(ts)
  {
    var parsed := ParseSubtitles(Some(text)).value;
    forall k | 0 <= k < |ts|
      ensures parsed[k] == ts[k]
    {
      assert Split(text, ";;")[k] == RenderTrack(ts[k]);
      ParseRenderTrack(ts[k]);
    }
    assert parsed == ts;
  }

  // ---------------------------------------------------------------------------
  // Video sources

  datatype VideoSource = VideoSource(src: string, mimeType: string, labelText: string)

  const EmptySource := VideoSource("", "", "")

  /** What the `sources` attribute parses to: the attribute itself when it
      holds no semicolon (a plain URL), otherwise one source per segment. */
  datatype SourcesValue = Url(url: string) | Sources(list: seq<VideoSource>)

  /** The `switch` of `parseSources` on an already trimmed value. */
  function AssignSource(v: VideoSource, a: Assignment): VideoSource {
    match a.name
    case "src" => v.(src := a.value)
    case "type" => v.(mimeType := a.value)
    case "label" => v.(labelText := a.value)
    case _ => v
  }

  function AssignAllSource(v: VideoSource, fields: seq<Assignment>): VideoSource
    decreases |fields|
  {
    if fields == [] then v else AssignAllSource(AssignSource(v, fields[0]), fields[1..])
  }

  /** One segment as `parseSources` reads it: the scanner keeps the name and
      value it has collected at every boundary and assigns nothing at the
      end. */
  function ParseSourceAsWritten(segment: string): VideoSource {
    AssignAllSource(EmptySource, TrimValues(Assignments(segment, false, false)))
  }

  /** One segment read the way `parseSubtitles` reads its segments, which is
      what the documented example of the attribute expects. */
  function ParseSource(segment: string): VideoSource {
    AssignAllSource(EmptySource, TrimValues(Assignments(segment, true, true)))
  }

  /** `parseSources`, with the segment reader as written (`asWritten`) or
      corrected. */
  function ParseSourcesWith(attr: Option<string>, asWritten: bool): (r: Option<SourcesValue>)
    ensures attr.None? <==> r.None?
    ensures attr.Some? && ';' !in attr.value ==> r == Some(Url(attr.value))
    ensures attr.Some? && ';' in attr.value ==> r.value.Sources? && |r.value.list| == |Split(attr.value, ";;")|
    ensures attr.Some? && ';' in attr.value ==> forall k :: 0 <= k < |r.value.list| ==>
      r.value.list[k] == if asWritten then ParseSourceAsWritten(Split(attr.value, ";;")[k]) else ParseSource(Split(attr.value, ";;")[k])
  {
    match attr
    case None => None
    case Some(s) =>
      if ';' !in s then Some(Url(s))
      else
        var segments := Split(s, ";;");
        Some(Sources(seq(|segments|, k requires 0 <= k < |segments| =>
          if asWritten then ParseSourceAsWritten(segments[k]) else ParseSource(segments[k]))))
  }

  function ParseSourcesAsWritten(attr: Option<string>): Option<SourcesValue> {
    ParseSourcesWith(attr, true)
  }

  function ParseSources(attr: Option<string>): Option<SourcesValue> {
    ParseSourcesWith(attr, false)
  }

  /** `src=a,b` reads as the source `a,b` with the corrected reader and as
      nothing with the reader as written. */
  lemma CommaInSource(segment: string)
    requires segment == "src=a,b"
    ensures ParseSource(segment) == VideoSource("a,b", "", "")
    ensures ParseSourceAsWritten(segment) == EmptySource
  {
    var v := "a,b";
    CommaBeforeNoWord(v);
    CommaStaysInValue("src", v);
    assert "src" + "=" + v == segment;
    OneSrcField(v, segment);
  }

  lemma CommaBeforeNoWord(v: string)
    requires v == "a,b"
    ensures forall i :: 0 <= i < |v| && v[i] == ',' ==> !Lookahead(v[i + 1..])
  {
    forall i | 0 <= i < |v| && v[i] == ','
      ensures !Lookahead(v[i + 1..])
    {
      assert i == 1 && v[2..] == "b";
    }
  }

  /** A segment the scanners read as the one field `src`. */
  lemma OneSrcField(v: string, segment: string)
    requires IsTrimmed(v)
    requires Assignments(segment, true, true) == [Assignment("src", v)] && Assignments(segment, false, false) == []
    ensures ParseSource(segment) == VideoSource(v, "", "") && ParseSourceAsWritten(segment) == EmptySource
  {
    var field := Assignment("src", v);
    TrimPlain(v);
    assert TrimValues([field]) == [field];
    assert TrimValues([]) == [];
    assert [field][1..] == [];
    assert AssignAllSource(EmptySource, [field]) == AssignAllSource(AssignSource(EmptySource, field), []);
  }


  // The segment reader as written

  predicate Extends(n: string, prefix: string) {
    |n| >= |prefix| && n[..|prefix|] == prefix
  }

  /** Every cumulative name extends the first piece's name, and after the
      first by at least one character. */
  lemma {:induction false} CumulativeNames(ps: seq<Assignment>, name: string, value: string)
    requires |ps| >= 1 && forall k :: 1 <= k < |ps| ==> |ps[k].name| >= 1
    ensures forall k :: 0 <= k < |ps| ==> Extends(Cumulative(ps, name, value)[k].name, name + ps[0].name)
    ensures forall k :: 1 <= k < |ps| ==> |Cumulative(ps, name, value)[k].name| > |name + ps[0].name|
    decreases |ps|
  {
    var c := Cumulative(ps, name, value);
    var a := Assignment(name + ps[0].name, value + ps[0].value);
    assert c[0] == a;
    assert a.name[..|a.name|] == a.name;
    if |ps| > 1 {
      var tail := Cumulative(ps[1..], a.name, a.value);
      assert c[1..] == tail;
      CumulativeNames(ps[1..], a.name, a.value);
      var longer := a.name + ps[1..][0].name;
      forall k | 1 <= k < |c|
        ensures Extends(c[k].name, a.name) && |c[k].name| > |a.name|
      {
        assert c[k] == tail[k - 1];
        var n := tail[k - 1].name;
        assert Extends(n, longer);
        assert n[..|a.name|] == n[..|longer|][..|a.name|];
      }
    }
  }

  /** Assignments to names the switch does not know change nothing. */
  lemma {:induction false} AssignUnknownSource(v: VideoSource, fields: seq<Assignment>)
    requires forall k :: 0 <= k < |fields| ==> fields[k].name !in {"src", "type", "label"}
    ensures AssignAllSource(v, fields) == v
    decreases |fields|
  {
    if fields != [] {
      AssignUnknownSource(v, fields[1..]);
    }
  }

  /** A name extending `src`, `type` or `label` is none of the three. */
  lemma ExtendedNameUnknown(first: string, n: string)
    requires first in {"src", "type", "label"}
    requires |n| > |first| && n[..|first|] == first
    ensures n !in {"src", "type", "label"}
  {
    assert n[0] == first[0];
  }

  /** As written, when the first field is `src`, `type` or `label` only that
      field is ever assigned, and only when another field follows it: every
      later assignment goes to the names run together. */
  lemma AsWrittenOnlyFirst(ps: seq<Assignment>)
    requires WellFormed(ps) && ps[0].name in {"src", "type", "label"}
    ensures ParseSourceAsWritten(Pieces(ps))
      == if |ps| == 1 then EmptySource else AssignSource(EmptySource, Assignment(ps[0].name, Trim(ps[0].value)))
  {
    SourceScannerReadsCumulative(ps);
    var c := Cumulative(ps, "", "");
    var made := TrimValues(c[..|ps| - 1]);
    assert made == TrimValues(Assignments(Pieces(ps), false, false));
    if |ps| > 1 {
      FirstCumulative(ps);
      LaterNamesUnknown(ps);
      forall k | 0 <= k < |made[1..]|
        ensures made[1..][k].name !in {"src", "type", "label"}
      {
        assert made[1..][k].name == c[k + 1].name;
      }
      AssignUnknownSource(AssignSource(EmptySource, made[0]), made[1..]);
    }
  }

  /** The first cumulative assignment is the first piece itself. */
  lemma FirstCumulative(ps: seq<Assignment>)
    requires |ps| >= 1
    ensures Cumulative(ps, "", "")[0] == ps[0]
  {
    assert "" + ps[0].name == ps[0].name;
    assert "" + ps[0].value == ps[0].value;
  }

  /** After a first field named `src`, `type` or `label`, every cumulative
      name is none of the three. */
  lemma LaterNamesUnknown(ps: seq<Assignment>)
    requires |ps| > 1 && ps[0].name in {"src", "type", "label"}
    requires forall k :: 1 <= k < |ps| ==> |ps[k].name| >= 1
    ensures forall k :: 1 <= k < |ps| ==> Cumulative(ps, "", "")[k].name !in {"src", "type", "label"}
  {
    var first := "" + ps[0].name;
    assert first == ps[0].name;
    CumulativeNames(ps, "", "");
    ExtensionsUnknown(Cumulative(ps, "", ""), first);
  }

  /** Names that strictly extend `src`, `type` or `label` are none of the three. */
  lemma ExtensionsUnknown(c: seq<Assignment>, first: string)
    requires first in {"src", "type", "label"}
    requires forall k :: 1 <= k < |c| ==> Extends(c[k].name, first)
    requires forall k :: 1 <= k < |c| ==> |c[k].name| > |first|
    ensures forall k :: 1 <= k < |c| ==> c[k].name !in {"src", "type", "label"}
  {
    forall k | 1 <= k < |c|
      ensures c[k].name !in {"src", "type", "label"}
    {
      ExtendedNameUnknown(first, c[k].name);
    }
  }

  /** As written, a later field can be stored when the names run together:
      in `lab=x,el=y,z=w` the second boundary assigns the name `label` with
      the value `xy`, so the label is `xy`, and the last field is lost. */
  lemma AsWrittenRunsNamesTogether(segment: string)
    requires segment == "lab=x,el=y,z=w"
    ensures Assignments(segment, false, false) == [Assignment("lab", "x"), Assignment("label", "xy")]
    ensures ParseSourceAsWritten(segment) == VideoSource("", "", "xy")
  {
    var ps := RunTogether();
    RunTogetherPieces();
    SourceScannerReadsCumulative(ps);
    RunTogetherCumulative();
    RunTogetherAssigned();
  }

  function RunTogether(): seq<Assignment> {
    [Assignment("lab", "x"), Assignment("el", "y"), Assignment("z", "w")]
  }

  lemma RunTogetherPieces()
    ensures WellFormed(RunTogether()) && Pieces(RunTogether()) == "lab=x,el=y,z=w"
  {
    RunTogetherWellFormed();
    RunTogetherText();
  }

  lemma RunTogetherWellFormed()
    ensures WellFormed(RunTogether())
  {
    var ps := RunTogether();
    assert IsWord(ps[1].name) by {
      assert ps[1].name == "el";
    }
    assert IsWord(ps[2].name) by {
      assert ps[2].name == "z";
    }
  }

  lemma RunTogetherText()
    ensures Pieces(RunTogether()) == "lab=x,el=y,z=w"
  {
    var a, b, c := Assignment("lab", "x"), Assignment("el", "y"), Assignment("z", "w");
    PiecesOfThree(a, b, c);
    assert Piece(a) == "lab=x";
    assert Piece(b) == "el=y";
    assert Piece(c) == "z=w";
    assert "lab=x" + "," + ("el=y" + "," + "z=w") == "lab=x,el=y,z=w";
  }

  lemma PiecesOfThree(a: Assignment, b: Assignment, c: Assignment)
    ensures Pieces([a, b, c]) == Piece(a) + "," + (Piece(b) + "," + Piece(c))
  {
    assert [a, b, c][1..] == [b, c];
    assert [b, c][1..] == [c];
    assert Pieces([b, c]) == Piece(b) + "," + Piece(c);
  }

  lemma RunTogetherCumulative()
    ensures Cumulative(RunTogether(), "", "")[..2] == [Assignment("lab", "x"), Assignment("label", "xy")]
  {
    var ps := RunTogether();
    var c := Cumulative(ps, "", "");
    var a := Assignment("lab", "x");
    assert "" + "lab" == "lab" && "" + "x" == "x";
    var tail := Cumulative(ps[1..], "lab", "x");
    assert c == [a] + tail;
    assert ps[1..][0] == Assignment("el", "y");
    assert "lab" + "el" == "label" && "x" + "y" == "xy";
    assert tail[0] == Assignment("label", "xy");
    assert c[..2] == [c[0], c[1]];
  }

  lemma RunTogetherAssigned()
    ensures AssignAllSource(EmptySource, TrimValues([Assignment("lab", "x"), Assignment("label", "xy")])) == VideoSource("", "", "xy")
  {
    var a, b := Assignment("lab", "x"), Assignment("label", "xy");
    RunTogetherTrimmed(a, b);
    var labelled := VideoSource("", "", "xy");
    assert AssignSource(EmptySource, a) == EmptySource;
    assert AssignSource(EmptySource, b) == labelled;
    assert AssignAllSource(labelled, []) == labelled;
    AssignSourceChain(EmptySource, b, labelled, [], labelled);
    assert [b] + [] == [b];
    AssignSourceChain(EmptySource, a, EmptySource, [b], labelled);
    assert [a] + [b] == [a, b];
  }

  lemma RunTogetherTrimmed(a: Assignment, b: Assignment)
    requires a == Assignment("lab", "x") && b == Assignment("label", "xy")
    ensures TrimValues([a, b]) == [a, b]
  {
    TrimPlain(a.value);
    TrimPlain(b.value);
  }


  /** As written, a source in the documented syntax `src=…,type=…,label=…`
      keeps only its `src`: the type and the label come out empty. */
  lemma AsWrittenDropsTypeAndLabel(v: VideoSource)
    requires PlainSource(v)
    ensures ParseSourceAsWritten(RenderSource(v)) == VideoSource(v.src, "", "")
  {
    var ps := SourceFields(v);
    SourceFieldsWellFormed(v);
    assert ps[0] == Assignment("src", v.src);
    AsWrittenOnlyFirst(ps);
    assert Trim(v.src) == v.src by {
      TrimPlain(v.src);
    }
  }

  lemma TrimPlain(v: string)
    requires IsTrimmed(v)
    ensures Trim(v) == v
  {
    TrimSpec(v);
  }

  // The corrected segment reader

  function SourceFields(v: VideoSource): seq<Assignment> {
    [Assignment("src", v.src)] + ([Assignment("type", v.mimeType)] + [Assignment("label", v.labelText)])
  }

  /** A source written in the attribute syntax. */
  function RenderSource(v: VideoSource): string {
    Pieces(SourceFields(v))
  }

  predicate PlainSource(v: VideoSource) {
    PlainValue(v.src) && PlainValue(v.mimeType) && PlainValue(v.labelText)
  }

  lemma AssignSourceChain(v: VideoSource, a: Assignment, next: VideoSource, rest: seq<Assignment>, r: VideoSource)
    requires AssignSource(v, a) == next && AssignAllSource(next, rest) == r
    ensures AssignAllSource(v, [a] + rest) == r
  {
    assert ([a] + rest)[1..] == rest;
  }

  lemma AssignSourceFields(v: VideoSource)
    ensures AssignAllSource(EmptySource, SourceFields(v)) == v
  {
    var v1 := EmptySource.(src := v.src);
    var v2 := v1.(mimeType := v.mimeType);
    var r2 := [Assignment("label", v.labelText)];
    var r1 := [Assignment("type", v.mimeType)] + r2;
    assert AssignAllSource(v, []) == v;
    AssignSourceChain(v2, Assignment("label", v.labelText), v, [], v);
    assert [Assignment("label", v.labelText)] + [] == r2;
    AssignSourceChain(v1, Assignment("type", v.mimeType), v2, r2, v);
    AssignSourceChain(EmptySource, Assignment("src", v.src), v1, r1, v);
  }

  lemma SourceFieldsWellFormed(v: VideoSource)
    requires PlainSource(v)
    ensures WellFormed(SourceFields(v))
    ensures forall k :: 0 <= k < |SourceFields(v)| ==>
      (';' !in SourceFields(v)[k].name && ';' !in SourceFields(v)[k].value && IsTrimmed(SourceFields(v)[k].value))
  {
    WordNames();
    assert IsWord("type");
    var ps := SourceFields(v);
    assert ps[0].name == "src" && ps[1].name == "type" && ps[2].name == "label";
    forall k | 0 <= k < |ps|
      ensures PlainValue(ps[k].value)
    {
      assert ps[k].value in {v.src, v.mimeType, v.labelText};
    }
  }

  /** A plain source written in the attribute syntax reads back as itself. */
  lemma ParseRenderSource(v: VideoSource)
    requires PlainSource(v)
    ensures ParseSource(RenderSource(v)) == v
  {
    var ps := SourceFields(v);
    assert Assignments(RenderSource(v), true, true) == ps by {
      SourceFieldsWellFormed(v);
      SubtitleScannerReadsPieces(ps);
    }
    assert TrimValues(ps) == ps by {
      SourceFieldsWellFormed(v);
      TrimValuesTrimmed(ps);
    }
    AssignSourceFields(v);
  }

  function RenderSources(vs: seq<VideoSource>): string
    requires |vs| >= 1
  {
    Join(seq(|vs|, k requires 0 <= k < |vs| => RenderSource(vs[k])), ";;")
  }

  function SourceTexts(vs: seq<VideoSource>): seq<string> {
    seq(|vs|, k requires 0 <= k < |vs| => RenderSource(vs[k]))
  }

  lemma SplitRenderSources(vs: seq<VideoSource>)
    requires |vs| >= 1 && forall k :: 0 <= k < |vs| ==> PlainSource(vs[k])
    ensures Split(RenderSources(vs), ";;") == SourceTexts(vs)
  {
    var parts := SourceTexts(vs);
    var sep := ";;";
    forall k | 0 <= k < |parts|
      ensures sep[0] !in parts[k]
    {
      SourceFieldsWellFormed(vs[k]);
      NoSemicolonInPieces(SourceFields(vs[k]));
    }
    assert RenderSources(vs) == Join(parts, sep);
    SplitJoin(parts, sep);
  }

  lemma SemicolonInRenderSources(vs: seq<VideoSource>)
    requires |vs| >= 2
    ensures ';' in RenderSources(vs)
  {
    var parts := SourceTexts(vs);
    var text := RenderSources(vs);
    assert text == parts[0] + ";;" + Join(parts[1..], ";;");
    assert text[|parts[0]|] == ';';
  }

  lemma ParseRenderOneSource(vs: seq<VideoSource>)
    requires |vs| == 1 && PlainSource(vs[0])
    ensures ParseSources(Some(RenderSources(vs))) == Some(Url(RenderSource(vs[0])))
  {
    var v := vs[0];
    assert RenderSources(vs) == RenderSource(v);
    assert ';' !in RenderSource(v) by {
      SourceFieldsWellFormed(v);
      NoSemicolonInPieces(SourceFields(v));
    }
  }

  lemma ParseRenderManySources(vs: seq<VideoSource>)
    requires |vs| >= 2 && forall k :: 0 <= k < |vs| ==> PlainSource(vs[k])
    ensures ParseSources(Some(RenderSources(vs))) == Some(Sources(vs))
  {
    SemicolonInRenderSources(vs);
    SplitRenderSources(vs);
    ParseSplitSources(RenderSources(vs), vs);
  }

  lemma ParseSplitSources(text: string, vs: seq<VideoSource>)
    requires ';' in text && Split(text, ";;") == SourceTexts(vs)
    requires forall k :: 0 <= k < |vs| ==> PlainSource(vs[k])
    ensures ParseSources(Some(text)) == Some(Sources(vs))
  {
    var r := ParseSources(Some(text));
    forall k | 0 <= k < |vs|
      ensures r.value.list[k] == vs[k]
    {
      assert Split(text, ";;")[k] == RenderSource(vs[k]);
      ParseRenderSource(vs[k]);
    }
    assert r.value.list == vs;
  }

  /** The sources with only their `src` kept. */
  function SrcOnly(vs: seq<VideoSource>): (r: seq<VideoSource>)
    ensures |r| == |vs|
    ensures forall k :: 0 <= k < |vs| ==> r[k] == VideoSource(vs[k].src, "", "")
  {
    seq(|vs|, k requires 0 <= k < |vs| => VideoSource(vs[k].src, "", ""))
  }

  /** As written, two or more plain sources in the documented syntax are
      stored with their `src` only: every type and every label is lost. */
  lemma AsWrittenSourcesKeepOnlySrc(vs: seq<VideoSource>)
    requires |vs| >= 2 && forall k :: 0 <= k < |vs| ==> PlainSource(vs[k])
    ensures ParseSourcesAsWritten(Some(RenderSources(vs))) == Some(Sources(SrcOnly(vs)))
  {
    SemicolonInRenderSources(vs);
    SplitRenderSources(vs);
    AsWrittenSplitSources(RenderSources(vs), vs);
  }

  lemma AsWrittenSplitSources(text: string, vs: seq<VideoSource>)
    requires ';' in text && Split(text, ";;") == SourceTexts(vs)
    requires forall k :: 0 <= k < |vs| ==> PlainSource(vs[k])
    ensures ParseSourcesAsWritten(Some(text)) == Some(Sources(SrcOnly(vs)))
  {
    var r := ParseSourcesAsWritten(Some(text));
    forall k | 0 <= k < |vs|
      ensures r.value.list[k] == SrcOnly(vs)[k]
    {
      assert Split(text, ";;")[k] == RenderSource(vs[k]);
      AsWrittenDropsTypeAndLabel(vs[k]);
    }
    assert r.value.list == SrcOnly(vs);
  }

  /** Two or more plain sources written in the attribute syntax parse back
      (with the corrected reader); a single one is taken for a URL, since
      its text holds no semicolon. */
  lemma ParseRenderSources(vs: seq<VideoSource>)
    requires |vs| >= 1 && forall k :: 0 <= k < |vs| ==> PlainSource(vs[k])
    ensures |vs| >= 2 ==> ParseSources(Some(RenderSources(vs))) == Some(Sources(vs))
    ensures |vs| == 1 ==> ParseSources(Some(RenderSources(vs))) == Some(Url(RenderSource(vs[0])))
  {
    if |vs| == 1 {
      ParseRenderOneSource(vs);
    } else {
      ParseRenderManySources(vs);
    }
  }
}

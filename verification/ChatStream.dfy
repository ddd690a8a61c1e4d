/** Streaming chat: the server prints `data: <json>` frames separated by blank
    lines (server-sent events, section 9.2.5 of the WHATWG HTML standard) and the
    client reassembles them from reads cut anywhere. */
module ChatStream {
  import opened Collections
  import opened Text
  import opened Json

  const TOKEN := Literal("token")
  const DONE := Literal("done")
  const CITATIONS := Literal("citations")
  const INDEX := Literal("index")
  const SOURCE := Literal("source")
  const PAGE_NUMBER := Literal("page_number")
  const SNIPPET := Literal("snippet")

  // ---- the server -----------------------------------------------------------

  /** A citation as it is sent; its texts are code points. */
  datatype SentCitation = SentCitation(index: nat, source: PyText, page: Option<int>, text: PyText)

  function CitationValue(c: SentCitation): PyValue {
    PyDict([PyField(INDEX, PyInt(c.index)),
            PyField(SOURCE, PyStr(c.source)),
            PyField(PAGE_NUMBER, if c.page.None? then PyNone else PyInt(c.page.value)),
            PyField(SNIPPET, PyStr(UpTo(c.text, 200)))])
  }

  /** `_citation_payload` */
  function CitationPayload(cs: seq<SentCitation>): seq<PyValue> {
    Map(CitationValue, cs)
  }

  const BLANK := "\n\n"

  function TokenValue(token: PyText): PyValue { PyDict([PyField(TOKEN, PyStr(token))]) }

  function DoneValue(cs: seq<SentCitation>): PyValue {
    PyDict([PyField(DONE, PyBool(true)), PyField(CITATIONS, PyList(CitationPayload(cs)))])
  }

  function FrameBody(v: PyValue): string { "data: " + Dumps(v) }

  function Frame(v: PyValue): string { FrameBody(v) + BLANK }

  /** The printed values of one answer, in order. */
  function Values(tokens: seq<PyText>, cs: seq<SentCitation>): seq<PyValue> {
    if tokens == [] then [DoneValue(cs)] else [TokenValue(tokens[0])] + Values(tokens[1..], cs)
  }

  function Printed(vs: seq<PyValue>): string {
    if vs == [] then "" else Frame(vs[0]) + Printed(vs[1..])
  }

  /** The generator behind the streaming response: what it yields, in order. */
  method EventStream(tokens: seq<PyText>, cs: seq<SentCitation>) returns (frames: seq<string>)
    ensures Flatten(frames) == Printed(Values(tokens, cs))
    ensures |frames| == |tokens| + 1
  {
    frames := [];
    DropEnds(tokens);
    for i := 0 to |tokens|
      invariant |frames| == i
      invariant Flatten(frames) + Printed(Values(tokens[i..], cs)) == Printed(Values(tokens, cs))
    {
      DropNext(tokens, i);
      PrintedStep(tokens[i..], cs);
      FlattenSnoc(frames, Frame(TokenValue(tokens[i])));
      Assoc(Flatten(frames), Frame(TokenValue(tokens[i])), Printed(Values(tokens[i + 1..], cs)));
      frames := frames + [Frame(TokenValue(tokens[i]))];
    }
    PrintedLast(cs);
    FlattenSnoc(frames, Frame(DoneValue(cs)));
    frames := frames + [Frame(DoneValue(cs))];
  }

  lemma PrintedStep(tokens: seq<PyText>, cs: seq<SentCitation>)
    requires tokens != []
    ensures Printed(Values(tokens, cs)) == Frame(TokenValue(tokens[0])) + Printed(Values(tokens[1..], cs))
  {
    hide TokenValue, DoneValue, Frame;
    var rest := Values(tokens[1..], cs);
    assert ([TokenValue(tokens[0])] + rest)[1..] == rest;
  }

  lemma PrintedLast(cs: seq<SentCitation>)
    ensures Printed(Values([], cs)) == Frame(DoneValue(cs))
  {
    hide TokenValue, DoneValue, Frame;
    assert Printed([]) == "";
    AppendNil(Frame(DoneValue(cs)), "");
  }

  /** The refusal of a blocked query is one token and an empty citation list. */
  method RefusalStream(refusal: PyText) returns (frames: seq<string>)
    ensures Flatten(frames) == Printed(Values([refusal], []))
  {
    frames := [Frame(TokenValue(refusal)), Frame(DoneValue([]))];
    PrintedStep([refusal], []);
    PrintedLast([]);
    FlattenSnoc([Frame(TokenValue(refusal))], Frame(DoneValue([])));
    FlattenSnoc([], Frame(TokenValue(refusal)));
    AppendNilLeft(Frame(TokenValue(refusal)));
    assert [] + [Frame(TokenValue(refusal))] == [Frame(TokenValue(refusal))];
    assert [Frame(TokenValue(refusal))] + [Frame(DoneValue([]))] == frames;
  }

  // ---- the client -----------------------------------------------------------

  datatype Event = OnToken(token: Json) | OnDone(citations: Json) | OnError(message: string)

  /** JavaScript truthiness of a parsed value. */
  predicate Truthy(v: Json) {
    match v
    case JNull => false
    case JBool(b) => b
    case JNum(m, _) => m != 0
    case JStr(s) => s != []
    case JArr(_) => true
    case JObj(_) => true
  }

  /** `obj.key`: the last field of that name wins; anything but an object has none. */
  function FieldOf(v: Json, key: JsText): Option<Json> {
    if v.JObj? then LastField(v.fields, key) else None
  }

  function LastField(fields: seq<(JsText, Json)>, key: JsText): Option<Json> {
    if fields == [] then None
    else if fields[|fields| - 1].0 == key then Some(fields[|fields| - 1].1)
    else LastField(fields[..|fields| - 1], key)
  }

  predicate Holds(v: Option<Json>) { v.Some? && Truthy(v.value) }

  /** The handler calls for one parsed payload. */
  function Dispatch(obj: Json): seq<Event> {
    var token := FieldOf(obj, TOKEN);
    var done := FieldOf(obj, DONE);
    var citations := FieldOf(obj, CITATIONS);
    (if Holds(token) then [OnToken(token.value)] else [])
    + (if Holds(done) then [OnDone(if Holds(citations) then citations.value else JArr([]))] else [])
  }

  /** The handler calls for one frame; anything malformed is ignored. */
  function FrameEvents(frame: string): seq<Event> {
    var line := Trim(frame, IsJsSpace);
    if !("data:" <= line) then []
    else match Parse(Trim(line[5..], IsJsSpace)) case None => [] case Some(obj) => Dispatch(obj)
  }

  function AllEvents(frames: seq<string>): seq<Event> {
    if frames == [] then [] else FrameEvents(frames[0]) + AllEvents(frames[1..])
  }

  /** A frame that is no data frame, or whose data is no JSON text, is ignored. */
  lemma OddFrame(frame: string)
    requires "data:" <= Trim(frame, IsJsSpace) ==> Parse(Trim(Trim(frame, IsJsSpace)[5..], IsJsSpace)).None?
    ensures FrameEvents(frame) == []
  {
    hide Trim, Parse;
  }

  datatype Ending = Closed | Broken(message: string)

  datatype Response = Unreachable(message: string) | BadStatus(status: int) | Body(pieces: seq<string>, ending: Ending)

  function OrDefault(message: string): string { if message == "" then "Stream error" else message }

  /** `reads` are the decoded pieces of the body, in order. */
  method StreamChat(res: Response) returns (events: seq<Event>, buffer: string)
    ensures res.Unreachable? ==>
              events == [OnError(if res.message == "" then "Stream error" else res.message)]
    ensures res.BadStatus? ==> events == [OnError("Stream failed (" + DecimalInt(res.status) + ")")]
    ensures res.Body? ==>
              var whole := SplitOn(Flatten(res.pieces), BLANK);
              && buffer == Last(whole)
              && events == AllEvents(Init(whole))
                           + (if res.ending.Closed? then []
                              else [OnError(if res.ending.message == "" then "Stream error" else res.ending.message)])
  {
    events, buffer := [], "";
    match res {
      case Unreachable(message) => events := [OnError(OrDefault(message))];
      case BadStatus(status) => events := [OnError("Stream failed (" + DecimalInt(status) + ")")];
      case Body(pieces, ending) =>
        events, buffer := ReadBody(pieces);
        if ending.Broken? {
          events := events + [OnError(OrDefault(ending.message))];
        } else {
          AppendNil(events, []);
        }
    }
  }

  /** `while (true)`: one round per read. */
  method ReadBody(pieces: seq<string>) returns (events: seq<Event>, buffer: string)
    ensures buffer == Last(SplitOn(Flatten(pieces), BLANK))
    ensures events == AllEvents(Init(SplitOn(Flatten(pieces), BLANK)))
  {
    events, buffer := [], "";
    BlankNonEmpty();
    hide *;
    NothingRead(pieces[..0]);
    for i := 0 to |pieces|
      invariant buffer == Last(SplitOn(Flatten(pieces[..i]), BLANK))
      invariant events == AllEvents(Init(SplitOn(Flatten(pieces[..i]), BLANK)))
    {
      ReadMore(pieces, i);
      var frames := SplitOn(buffer + pieces[i], BLANK);
      buffer := Last(frames);
      events := DispatchFrames(Init(frames), events);
    }
    assert pieces[..|pieces|] == pieces;
  }

  /** `for (const frame of frames)` */
  method DispatchFrames(frames: seq<string>, before: seq<Event>) returns (events: seq<Event>)
    ensures events == before + AllEvents(frames)
  {
    events := before;
    DropEnds(frames);
    for i := 0 to |frames|
      invariant events + AllEvents(frames[i..]) == before + AllEvents(frames)
    {
      hide FrameEvents;
      DropNext(frames, i);
      Assoc(events, FrameEvents(frames[i]), AllEvents(frames[i + 1..]));
      events := events + FrameEvents(frames[i]);
    }
  }

  lemma NothingRead(none: seq<string>)
    requires none == []
    ensures SplitOn(Flatten(none), BLANK) == [""] && AllEvents(Init([""])) == [] && Last([""]) == ""
  {
  }

  lemma {:induction false} AllEventsAppend(a: seq<string>, b: seq<string>)
    ensures AllEvents(a + b) == AllEvents(a) + AllEvents(b)
  {
    hide FrameEvents;
    if a == [] {
      AppendNilLeft(b);
      AppendNilLeft(AllEvents(b));
    } else {
      AllEventsAppend(a[1..], b);
      assert (a + b)[1..] == a[1..] + b;
      Assoc(FrameEvents(a[0]), AllEvents(a[1..]), AllEvents(b));
    }
  }

  /** One read moves the split of everything read so far forward. */
  lemma ReadMore(pieces: seq<string>, i: nat)
    requires i < |pieces|
    ensures var was := SplitOn(Flatten(pieces[..i]), BLANK);
            var frames := SplitOn(Last(was) + pieces[i], BLANK);
            var now := SplitOn(Flatten(pieces[..i + 1]), BLANK);
            && Last(now) == Last(frames)
            && AllEvents(Init(now)) == AllEvents(Init(was)) + AllEvents(Init(frames))
  {
    BlankNonEmpty();
    hide *;
    var so := Flatten(pieces[..i]);
    var was := SplitOn(so, BLANK);
    var frames := SplitOn(Last(was) + pieces[i], BLANK);
    assert pieces[..i + 1] == pieces[..i] + [pieces[i]];
    FlattenSnoc(pieces[..i], pieces[i]);
    SplitResume(so, pieces[i], BLANK);
    InitAppend(Init(was), frames);
    AllEventsAppend(Init(was), Init(frames));
  }

  lemma BlankNonEmpty()
    ensures |BLANK| > 0
  {
  }

  lemma InitAppend<T>(a: seq<T>, b: seq<T>)
    requires b != []
    ensures Init(a + b) == a + Init(b) && Last(a + b) == Last(b)
  {
  }

  // ---- printing and parsing are inverse --------------------------------------------

  predicate NoNewline(s: string) { forall i :: 0 <= i < |s| ==> s[i] != '\n' }

  lemma SplitFrame(body: string, rest: string)
    requires NoNewline(body)
    ensures SplitOn(body + BLANK + rest, BLANK) == [body] + SplitOn(rest, BLANK)
  {
    var s := body + BLANK + rest;
    forall j | 0 <= j < |body| ensures !At(s, BLANK, j) {
      assert s[j] == body[j];
      if j + 2 <= |s| {
        assert s[j..j + 2][0] == s[j];
      }
    }
    assert s[|body|..|body| + 2] == BLANK;
    IndexOfUnique(s, BLANK, |body|);
    assert s[..|body|] == body && s[|body| + 2..] == rest;
  }

  lemma BodyLine(d: string)
    requires Printable(d) && d != "" && d[|d| - 1] == '}'
    ensures NoNewline("data: " + d) && Trim("data: " + d, IsJsSpace) == "data: " + d
  {
    hide Trim;
    PrintableAppend("data: ", d);
    TrimFixed("data: " + d, IsJsSpace);
  }

  lemma BodyTail(d: string)
    ensures |"data: " + d| >= 5 && "data:" <= "data: " + d && ("data: " + d)[5..] == " " + d
  {
  }

  lemma TrimOneSpace(d: string)
    requires d != "" && !IsJsSpace(d[0]) && !IsJsSpace(d[|d| - 1])
    ensures Trim(" " + d, IsJsSpace) == d
  {
    hide TrimLeft, TrimRight;
    TrimLeftDrops(" " + d, IsJsSpace);
    assert (" " + d)[1..] == d;
    TrimFixed(d, IsJsSpace);
    TrimLeftStays(d, IsJsSpace);
  }

  lemma DictText(v: PyValue)
    requires v.PyDict?
    ensures var d := Dumps(v); Printable(d) && d != "" && d[0] == '{' && d[|d| - 1] == '}'
  {
    hide DumpsFields;
    DumpsPrintable(v);
  }

  lemma FrameRoundTrip(v: PyValue)
    requires v.PyDict?
    ensures NoNewline(FrameBody(v)) && FrameEvents(FrameBody(v)) == Dispatch(ToJs(v))
  {
    hide Dispatch, Dumps, ToJs, Parse, Trim;
    DictText(v);
    BodyLine(Dumps(v));
    BodyTail(Dumps(v));
    TrimOneSpace(Dumps(v));
    RoundTrip(v);
  }

  predicate AllDicts(vs: seq<PyValue>) { forall i :: 0 <= i < |vs| ==> vs[i].PyDict? }

  function Dispatched(vs: seq<PyValue>): seq<Event> {
    if vs == [] then [] else Dispatch(ToJs(vs[0])) + Dispatched(vs[1..])
  }

  /** The frame bodies of the printed values. */
  function Frames(vs: seq<PyValue>): seq<string> {
    if vs == [] then [] else [FrameBody(vs[0])] + Frames(vs[1..])
  }

  /** The printed stream splits into its frame bodies and an empty remainder. */
  lemma {:induction false} PrintedSplits(vs: seq<PyValue>)
    requires AllDicts(vs)
    ensures SplitOn(Printed(vs), BLANK) == Frames(vs) + [""]
  {
    if vs == [] {
      NothingPrinted(vs);
    } else {
      DictHead(vs);
      hide *;
      FrameRoundTrip(vs[0]);
      PrintedSplits(vs[1..]);
      PrintedCons(vs);
      SplitFrame(FrameBody(vs[0]), Printed(vs[1..]));
      Assoc([FrameBody(vs[0])], Frames(vs[1..]), [""]);
    }
  }

  /** Each frame body is read back as the value it was printed from. */
  lemma {:induction false} FramesSeen(vs: seq<PyValue>)
    requires AllDicts(vs)
    ensures AllEvents(Frames(vs)) == Dispatched(vs)
  {
    if vs == [] {
      NothingPrinted(vs);
    } else {
      DictHead(vs);
      hide *;
      FrameRoundTrip(vs[0]);
      FramesSeen(vs[1..]);
      PrintedCons(vs);
      EventsCons(FrameBody(vs[0]), Frames(vs[1..]));
    }
  }

  lemma DictHead(vs: seq<PyValue>)
    requires AllDicts(vs) && vs != []
    ensures vs[0].PyDict? && AllDicts(vs[1..])
  {
  }

  lemma PrintedCons(vs: seq<PyValue>)
    requires vs != []
    ensures Printed(vs) == FrameBody(vs[0]) + BLANK + Printed(vs[1..])
    ensures Dispatched(vs) == Dispatch(ToJs(vs[0])) + Dispatched(vs[1..])
    ensures Frames(vs) == [FrameBody(vs[0])] + Frames(vs[1..])
  {
  }

  lemma NothingPrinted(none: seq<PyValue>)
    requires none == []
    ensures SplitOn(Printed(none), BLANK) == Frames(none) + [""]
    ensures AllEvents(Frames(none)) == Dispatched(none)
  {
  }

  lemma EventsCons(f: string, fs: seq<string>)
    ensures AllEvents([f] + fs) == FrameEvents(f) + AllEvents(fs)
  {
    hide FrameEvents;
    assert ([f] + fs)[1..] == fs;
  }

  /** One call for every non-empty token, in order. */
  function TokenCalls(tokens: seq<PyText>): seq<Event> {
    if tokens == [] then []
    else (if tokens[0] == [] then [] else [OnToken(JStr(Utf16(tokens[0])))]) + TokenCalls(tokens[1..])
  }

  /** The client's view of a citation. */
  ghost predicate Shows(item: Json, c: SentCitation) {
    && FieldOf(item, Literal("index")) == Some(JNum(c.index, 0))
    && FieldOf(item, Literal("source")) == Some(JStr(Utf16(c.source)))
    && FieldOf(item, Literal("page_number")) == Some(if c.page.None? then JNull else JNum(c.page.value, 0))
    && FieldOf(item, Literal("snippet")) == Some(JStr(Utf16(if |c.text| <= 200 then c.text else c.text[..200])))
  }

  /** The citations as they arrive: one item each, in order. */
  ghost predicate Arrived(v: Json, cs: seq<SentCitation>) {
    v.JArr? && |v.items| == |cs| && forall i :: 0 <= i < |cs| ==> Shows(v.items[i], cs[i])
  }

  /** The calls the user sees: every non-empty token in order, then once the citations. */
  ghost predicate Delivered(events: seq<Event>, tokens: seq<PyText>, cs: seq<SentCitation>) {
    && events != [] && Init(events) == TokenCalls(tokens)
    && Last(events).OnDone? && Arrived(Last(events).citations, cs)
  }

  lemma Utf16Empty(s: PyText)
    ensures Utf16(s) == [] <==> s == []
  {
  }

  lemma LiteralsDiffer()
    ensures Utf16(TOKEN) == TOKEN
    ensures Utf16(DONE) == DONE
    ensures Utf16(CITATIONS) == CITATIONS
    ensures |TOKEN| == 5 && |DONE| == 4 && |CITATIONS| == 9
  {
    Utf16Ascii(TOKEN);
    Utf16Ascii(DONE);
    Utf16Ascii(CITATIONS);
  }

  lemma {:induction false} Utf16Ascii(s: PyText)
    requires forall i :: 0 <= i < |s| ==> s[i] < 0x10000
    ensures Utf16(s) == s
    decreases |s|
  {
    if s != [] {
      Utf16Ascii(s[1..]);
      assert s == [s[0]] + s[1..];
    }
  }

  lemma OneField(k: PyText, v: PyValue)
    ensures ToJsFields([PyField(k, v)]) == [(Utf16(k), ToJs(v))]
  {
    assert ToJsFields([PyField(k, v)][1..]) == [];
  }

  lemma TwoFields(k: PyText, v: PyValue, k': PyText, v': PyValue)
    ensures ToJsFields([PyField(k, v), PyField(k', v')]) == [(Utf16(k), ToJs(v)), (Utf16(k'), ToJs(v'))]
  {
    assert [PyField(k, v), PyField(k', v')][1..] == [PyField(k', v')];
    OneField(k', v');
  }

  lemma LastOfOne(a: (JsText, Json), key: JsText)
    ensures LastField([a], key) == if a.0 == key then Some(a.1) else None
  {
    assert [a][..0] == [];
  }

  lemma LastOfTwo(a: (JsText, Json), b: (JsText, Json), key: JsText)
    ensures LastField([a, b], key) == if b.0 == key then Some(b.1) else if a.0 == key then Some(a.1) else None
  {
    assert [a, b][..1] == [a];
    LastOfOne(a, key);
  }

  lemma TokenFields(token: PyText)
    ensures ToJs(TokenValue(token)) == JObj([(TOKEN, JStr(Utf16(token)))])
  {
    hide Utf16, Literal;
    LiteralsDiffer();
    OneField(TOKEN, PyStr(token));
  }

  lemma DoneFields(cs: seq<SentCitation>)
    ensures ToJs(DoneValue(cs)) == JObj([(DONE, JBool(true)), (CITATIONS, ToJs(PyList(CitationPayload(cs))))])
  {
    hide Utf16, Literal, CitationPayload, ToJsItems, ToJsFields;
    LiteralsDiffer();
    TwoFields(DONE, PyBool(true), CITATIONS, PyList(CitationPayload(cs)));
  }

  lemma TokenDispatch(token: PyText)
    ensures Dispatch(ToJs(TokenValue(token)))
         == if token == [] then [] else [OnToken(JStr(Utf16(token)))]
  {
    hide LastField, Utf16, ToJs, TokenValue;
    LiteralsDiffer();
    TokenFields(token);
    LastOfOne((TOKEN, JStr(Utf16(token))), TOKEN);
    LastOfOne((TOKEN, JStr(Utf16(token))), DONE);
    Utf16Empty(token);
  }

  lemma DoneDispatch(cs: seq<SentCitation>)
    ensures Dispatch(ToJs(DoneValue(cs))) == [OnDone(ToJs(PyList(CitationPayload(cs))))]
  {
    hide LastField, ToJs, DoneValue;
    LiteralsDiffer();
    DoneFields(cs);
    ListIsArray(CitationPayload(cs));
    var a, b := (DONE, JBool(true)), (CITATIONS, ToJs(PyList(CitationPayload(cs))));
    LastOfTwo(a, b, TOKEN);
    LastOfTwo(a, b, DONE);
    LastOfTwo(a, b, CITATIONS);
  }

  lemma ListIsArray(items: seq<PyValue>)
    ensures ToJs(PyList(items)).JArr?
  {
  }

  lemma {:induction false} ValuesDispatch(tokens: seq<PyText>, cs: seq<SentCitation>)
    ensures AllDicts(Values(tokens, cs))
    ensures Dispatched(Values(tokens, cs)) == TokenCalls(tokens) + [OnDone(ToJs(PyList(CitationPayload(cs))))]
    decreases |tokens|
  {
    hide Dispatch, ToJs, TokenValue, DoneValue;
    var last := [OnDone(ToJs(PyList(CitationPayload(cs))))];
    if tokens == [] {
      DoneDispatch(cs);
      DoneIsDict(cs);
      assert Dispatched([DoneValue(cs)][1..]) == [];
      AppendNilLeft(last);
    } else {
      ValuesDispatch(tokens[1..], cs);
      TokenDispatch(tokens[0]);
      TokenIsDict(tokens[0]);
      var rest := Values(tokens[1..], cs);
      assert ([TokenValue(tokens[0])] + rest)[1..] == rest;
      Assoc(Dispatch(ToJs(TokenValue(tokens[0]))), TokenCalls(tokens[1..]), last);
    }
  }

  lemma {:induction false} ItemsAt(items: seq<PyValue>, i: nat)
    requires i < |items|
    ensures ToJsItems(items)[i] == ToJs(items[i])
  {
    hide ToJs;
    if i > 0 {
      ItemsAt(items[1..], i - 1);
    }
  }

  lemma ItemShows(c: SentCitation)
    ensures Shows(ToJs(CitationValue(c)), c)
  {
    hide ToJs, CitationValue, FieldOf;
    CitationSeen(c);
    Snippet(c.text);
  }

  lemma Snippet(text: PyText)
    ensures UpTo(text, 200) == if |text| <= 200 then text else text[..200]
  {
  }

  lemma PayloadArrives(cs: seq<SentCitation>)
    ensures Arrived(ToJs(PyList(CitationPayload(cs))), cs)
  {
    hide Shows, CitationValue;
    var items := CitationPayload(cs);
    forall i | 0 <= i < |cs| ensures Shows(ToJsItems(items)[i], cs[i]) {
      ItemsAt(items, i);
      ItemShows(cs[i]);
    }
  }

  lemma TokenIsDict(t: PyText)
    ensures TokenValue(t).PyDict?
  {
  }

  lemma DoneIsDict(cs: seq<SentCitation>)
    ensures DoneValue(cs).PyDict?
  {
  }

  /** Print/parse inverse: whatever the tokens and citations, and however the printed
      stream is cut into pieces, the client sees exactly the non-empty tokens in
      order, then the citations once, and is left with an empty buffer. */
  lemma StreamRoundTrip(tokens: seq<PyText>, cs: seq<SentCitation>, pieces: seq<string>)
    requires Flatten(pieces) == Printed(Values(tokens, cs))
    ensures var whole := SplitOn(Flatten(pieces), BLANK);
            Last(whole) == "" && Delivered(AllEvents(Init(whole)), tokens, cs)
  {
    ValuesDispatch(tokens, cs);
    PrintedSplits(Values(tokens, cs));
    FramesSeen(Values(tokens, cs));
    InitAppend(Frames(Values(tokens, cs)), [""]);
    InitSingle("");
    AppendNil(Frames(Values(tokens, cs)), []);
    var done := OnDone(ToJs(PyList(CitationPayload(cs))));
    PayloadArrives(cs);
    InitAppend(TokenCalls(tokens), [done]);
    InitSingle(done);
    AppendNil(TokenCalls(tokens), []);
  }

  /** The whole exchange: server, network cutting, client. */
  method Exchange(tokens: seq<PyText>, cs: seq<SentCitation>, pieces: seq<string>)
    returns (events: seq<Event>, buffer: string)
    requires Flatten(pieces) == Printed(Values(tokens, cs))
    ensures Delivered(events, tokens, cs) && buffer == ""
  {
    BlankNonEmpty();
    hide *;
    events, buffer := StreamChat(Body(pieces, Closed));
    StreamRoundTrip(tokens, cs, pieces);
    AppendNil(AllEvents(Init(SplitOn(Flatten(pieces), BLANK))), []);
  }

  /** The printed stream is ASCII throughout, so a decoder may cut it anywhere. */
  lemma {:induction false} PrintedAscii(vs: seq<PyValue>)
    ensures forall i :: 0 <= i < |Printed(vs)| ==> Printed(vs)[i] < 128 as char
  {
    if vs != [] {
      hide Dumps;
      PrintedAscii(vs[1..]);
      DumpsPrintable(vs[0]);
    }
  }

  // ---- nothing is lost on the way ------------------------------------------------------

  /** The client finds every citation field under its name. */
  lemma CitationSeen(c: SentCitation)
    ensures var v := ToJs(CitationValue(c));
            && FieldOf(v, INDEX) == Some(JNum(c.index, 0))
            && FieldOf(v, SOURCE) == Some(JStr(Utf16(c.source)))
            && FieldOf(v, PAGE_NUMBER) == Some(if c.page.None? then JNull else JNum(c.page.value, 0))
            && FieldOf(v, SNIPPET) == Some(JStr(Utf16(UpTo(c.text, 200))))
  {
    hide Utf16, Literal, LastField, ToJsFields;
    CitationNames();
    var fields := CitationValue(c).fields;
    FieldsAt(fields);
    var js := ToJsFields(fields);
    LastAt(js, 0);
    LastAt(js, 1);
    LastAt(js, 2);
    LastAt(js, 3);
  }

  lemma {:induction false} FieldsAt(fields: seq<PyField>)
    ensures |ToJsFields(fields)| == |fields|
    ensures forall i :: 0 <= i < |fields| ==>
              ToJsFields(fields)[i] == (Utf16(fields[i].key), ToJs(fields[i].value))
  {
    hide Utf16, ToJs;
    if fields != [] {
      FieldsAt(fields[1..]);
    }
  }

  lemma {:induction false} LastAt(fields: seq<(JsText, Json)>, i: nat)
    requires i < |fields| && forall j :: i < j < |fields| ==> fields[j].0 != fields[i].0
    ensures LastField(fields, fields[i].0) == Some(fields[i].1)
    decreases |fields|
  {
    if i < |fields| - 1 {
      LastAt(fields[..|fields| - 1], i);
    }
  }

  lemma CitationNames()
    ensures Utf16(INDEX) == INDEX && Utf16(SOURCE) == SOURCE
    ensures Utf16(PAGE_NUMBER) == PAGE_NUMBER && Utf16(SNIPPET) == SNIPPET
    ensures |INDEX| == 5 && |SOURCE| == 6 && |PAGE_NUMBER| == 11 && |SNIPPET| == 7
  {
    Utf16Ascii(INDEX);
    Utf16Ascii(SOURCE);
    Utf16Ascii(PAGE_NUMBER);
    Utf16Ascii(SNIPPET);
  }

  /** Text made of Unicode scalar values: no lone surrogates. */
  predicate Scalar(c: CodePoint) { !(0xD800 <= c < 0xE000) }

  /** On such text the code units determine the code points, so the client can
      recover each token exactly. */
  lemma {:induction false} Utf16Injective(s: PyText, t: PyText)
    requires forall i :: 0 <= i < |s| ==> Scalar(s[i])
    requires forall i :: 0 <= i < |t| ==> Scalar(t[i])
    requires Utf16(s) == Utf16(t)
    ensures s == t
    decreases |s|
  {
    Utf16Empty(s);
    Utf16Empty(t);
    if s != [] {
      UnitsHead(s[0], Utf16(s[1..]), t[0], Utf16(t[1..]));
      Utf16Injective(s[1..], t[1..]);
      assert s == [s[0]] + s[1..] && t == [t[0]] + t[1..];
    }
  }

  lemma UnitsHead(a: CodePoint, x: JsText, b: CodePoint, y: JsText)
    requires Scalar(a) && Scalar(b) && Units(a) + x == Units(b) + y
    ensures a == b && x == y
  {
    var u, v := Units(a) + x, Units(b) + y;
    assert u[0] == Units(a)[0] && v[0] == Units(b)[0];
    if a >= 0x10000 {
      assert u[1] == Units(a)[1];
      if b >= 0x10000 {
        assert v[1] == Units(b)[1];
      }
    }
    assert |Units(a)| == |Units(b)|;
    assert x == u[|Units(a)|..] && y == v[|Units(b)|..];
  }
}

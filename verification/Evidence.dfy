/** Evidence pooling of the research engine and agent, and numbered citations. */
module Evidence {
  import opened Collections
  import opened Text

  /** `metadata.get("source", "unknown")` and `metadata.get("page_number")`. */
  datatype Chunk = Chunk(id: string, text: string, source: Option<string>, page: Option<int>)

  datatype ResearchStep = ResearchStep(subQuestion: string, sourcesFound: nat)

  function ById(): (f: Chunk -> string)
    ensures forall c :: f(c) == c.id
  {
    (c: Chunk) => c.id
  }

  /** The pool after all hits: each chunk id once, at its first occurrence. */
  function Pool(hits: seq<seq<Chunk>>): seq<Chunk> { Dedup(Flatten(hits), ById(), {}) }

  /** The pool holds, in order, exactly the chunks before which no chunk has their id. */
  ghost predicate PoolOf(all: seq<Chunk>, pool: seq<Chunk>) {
    exists ps: seq<nat> :: PoolAt(all, pool, ps)
  }

  ghost predicate PoolAt(all: seq<Chunk>, pool: seq<Chunk>, ps: seq<nat>) {
    && |ps| == |pool| && Rising(ps)
    && (forall k :: 0 <= k < |ps| ==> ps[k] < |all| && pool[k] == all[ps[k]])
    && (forall i :: i in ps <==> 0 <= i < |all| && forall j :: 0 <= j < i ==> all[j].id != all[i].id)
  }

  lemma PoolIsFirsts(hits: seq<seq<Chunk>>)
    ensures PoolOf(Flatten(hits), Pool(hits))
  {
    var all := Flatten(hits);
    DedupIsFirsts(all, ById());
    var ps := FirstsAt(all, ById(), |all|);
    forall i ensures i in ps <==> 0 <= i < |all| && forall j :: 0 <= j < i ==> all[j].id != all[i].id {
      assert 0 <= i < |all| ==>
          (IsFirst(all, ById(), i) <==> forall j :: 0 <= j < i ==> ById()(all[j]) != ById()(all[i]));
    }
    assert PoolAt(all, Pool(hits), ps);
  }

  lemma FirstPosition(all: seq<Chunk>, i: nat) returns (f: nat)
    requires i < |all|
    ensures f <= i && all[f].id == all[i].id && forall j :: 0 <= j < f ==> all[j].id != all[f].id
  {
    f := i;
    if j :| 0 <= j < i && all[j].id == all[i].id {
      f := FirstPosition(all, j);
    }
  }

  ghost predicate Represents(pool: seq<Chunk>, id: string) { exists k :: 0 <= k < |pool| && pool[k].id == id }

  /** No id is lost and none is repeated. */
  lemma PoolComplete(all: seq<Chunk>, pool: seq<Chunk>)
    requires PoolOf(all, pool)
    ensures forall i :: 0 <= i < |all| ==> Represents(pool, all[i].id)
    ensures forall k, m :: 0 <= k < m < |pool| ==> pool[k].id != pool[m].id
  {
    var ps: seq<nat> :| PoolAt(all, pool, ps);
    forall i | 0 <= i < |all| ensures Represents(pool, all[i].id) {
      var f := FirstPosition(all, i);
      assert f in ps;
      var k :| 0 <= k < |ps| && ps[k] == f;
      assert pool[k] == all[f];
    }
    forall k, m | 0 <= k < m < |pool| ensures pool[k].id != pool[m].id {
      assert ps[m] in ps && ps[k] < ps[m];
    }
  }

  function StepsOf(queries: seq<string>, hits: seq<seq<Chunk>>): (r: seq<ResearchStep>)
    requires |queries| == |hits|
    ensures |r| == |hits| && forall i :: 0 <= i < |r| ==> r[i] == ResearchStep(queries[i], |hits[i]|)
  {
    seq(|hits|, i requires 0 <= i < |hits| => ResearchStep(queries[i], |hits[i]|))
  }

  lemma StepsGrow(queries: seq<string>, hits: seq<seq<Chunk>>, i: nat)
    requires i < |queries| == |hits|
    ensures StepsOf(queries, hits)[..i + 1] == StepsOf(queries, hits)[..i] + [ResearchStep(queries[i], |hits[i]|)]
  {
  }

  /** The gather loop shared by both engines; `hits[i]` answers `queries[i]`. */
  method Gather(queries: seq<string>, hits: seq<seq<Chunk>>) returns (evidence: seq<Chunk>, steps: seq<ResearchStep>)
    requires |queries| == |hits|
    ensures evidence == Pool(hits) && PoolOf(Flatten(hits), evidence)
    ensures steps == StepsOf(queries, hits)
  {
    evidence, steps := [], [];
    PoolIsFirsts(hits);
    var seen: set<string> := {};
    DropEnds(hits);
    for i := 0 to |queries|
      invariant evidence + Dedup(Flatten(hits[i..]), ById(), seen) == Pool(hits)
      invariant steps == StepsOf(queries, hits)[..i]
    {
      hide Dedup, Flatten, StepsOf;
      DropNext(hits, i);
      StepsGrow(queries, hits, i);
      FlattenCons(hits[i..]);
      steps := steps + [ResearchStep(queries[i], |hits[i]|)];
      evidence, seen := DedupInto(hits[i], ById(), Flatten(hits[i + 1..]), evidence, seen);
    }
    assert Flatten(hits[|hits|..]) == [];
    AppendNil(evidence, Dedup(Flatten(hits[|hits|..]), ById(), seen));
  }

  // ---- numbered citations ---------------------------------------------------------

  datatype Citation = Citation(index: nat, source: string, page: Option<int>, text: string)

  function SourceOf(c: Chunk): string { if c.source.None? then "unknown" else c.source.value }

  /** `[i] (from source, p.page)` and the chunk's text; page 0 counts as no page. */
  function Block(i: nat, c: Chunk): string {
    var loc := SourceOf(c) + (if c.page.Some? && c.page.value != 0 then ", p." + DecimalInt(c.page.value) else "");
    "[" + Decimal(i) + "] (from " + loc + ")\n" + c.text
  }

  /** The blocks of the chunks, numbered from 1. */
  function Blocks(chunks: seq<Chunk>): seq<string> {
    seq(|chunks|, (i: int) requires 0 <= i < |chunks| => Block(i + 1, chunks[i]))
  }

  /** A block shows its citation's number, source, page (unless there is none or it is 0)
      and text. */
  ghost predicate Describes(block: string, c: Citation) {
    block == "[" + Decimal(c.index) + "] (from " + c.source
             + (if c.page.None? || c.page == Some(0) then "" else ", p." + DecimalInt(c.page.value)) + ")\n" + c.text
  }

  lemma BlockDescribes(i: nat, c: Chunk)
    ensures Describes(Block(i, c), Citation(i, SourceOf(c), c.page, c.text))
  {
    var page := if c.page.Some? && c.page.value != 0 then ", p." + DecimalInt(c.page.value) else "";
    Assoc("[" + Decimal(i) + "] (from ", SourceOf(c), page);
  }

  method BuildContext(chunks: seq<Chunk>) returns (context: string, citations: seq<Citation>)
    ensures |citations| == |chunks|
    ensures forall i :: 0 <= i < |chunks| ==>
              citations[i] == Citation(i + 1, SourceOf(chunks[i]), chunks[i].page, chunks[i].text)
    ensures |Blocks(chunks)| == |chunks| && context == Join(Blocks(chunks), "\n\n")
    ensures forall i :: 0 <= i < |chunks| ==> Describes(Blocks(chunks)[i], citations[i])
  {
    citations := [];
    var parts: seq<string> := [];
    for i := 0 to |chunks|
      invariant |citations| == |parts| == i
      invariant forall j :: 0 <= j < i ==>
                  && citations[j] == Citation(j + 1, SourceOf(chunks[j]), chunks[j].page, chunks[j].text)
                  && parts[j] == Blocks(chunks)[j]
    {
      var c := chunks[i];
      var source := if c.source.None? then "unknown" else c.source.value;
      citations := citations + [Citation(i + 1, source, c.page, c.text)];
      var loc := source + (if c.page.Some? && c.page.value != 0 then ", p." + DecimalInt(c.page.value) else "");
      parts := parts + ["[" + Decimal(i + 1) + "] (from " + loc + ")\n" + c.text];
    }
    assert parts == Blocks(chunks);
    forall i | 0 <= i < |chunks| ensures Describes(Blocks(chunks)[i], citations[i]) {
      BlockDescribes(i + 1, chunks[i]);
    }
    context := Join(parts, "\n\n");
  }

  /** Deep research: pool, cap at `maxSources`, number. Citation i and block i describe
      the same chunk, and different citations different chunks. */
  method Research(queries: seq<string>, hits: seq<seq<Chunk>>, maxSources: int)
    returns (context: string, citations: seq<Citation>, steps: seq<ResearchStep>)
    requires |queries| == |hits|
    ensures steps == StepsOf(queries, hits)
    ensures PoolOf(Flatten(hits), Pool(hits))
    ensures var evidence := UpTo(Pool(hits), maxSources);
            && |citations| == |evidence|
            && (forall i :: 0 <= i < |citations| ==>
                  citations[i] == Citation(i + 1, SourceOf(evidence[i]), evidence[i].page, evidence[i].text))
            && |Blocks(evidence)| == |evidence| && context == Join(Blocks(evidence), "\n\n")
            && forall i :: 0 <= i < |citations| ==> Describes(Blocks(evidence)[i], citations[i])
  {
    PoolIsFirsts(hits);
    var ordered;
    ordered, steps := Gather(queries, hits);
    var evidence := UpTo(ordered, maxSources);
    if evidence == [] {
      assert Join(Blocks(evidence), "\n\n") == "";
      return "", [], steps;
    }
    context, citations := BuildContext(evidence);
  }
}

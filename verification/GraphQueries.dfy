/** What lookups, searches and seed selection answer, in terms of stored names. */
module GraphQueries {
  import opened Collections
  import opened Text
  import opened Ordering
  import opened GraphCore
  import opened GraphStore
  import opened GraphRetriever

  // ---- lookup ------------------------------------------------------------------------

  /** The entity answers to the name, and to the kind if one is asked for. */
  ghost predicate Answers(lower: string -> string, name: string, kind: Option<string>, e: StoredEntity) {
    lower(e.name) == lower(NormalizeName(name)) && (kind == None || kind == Some(e.kind))
  }

  /** A lookup finds the first stored entity whose lower-cased name is the lower-cased
      normalised name asked for, and nothing exactly when there is none. */
  lemma LookupIs(lower: string -> string, g: Graph, name: string, kind: Option<string>)
    ensures var es := g.entities.Values();
            match Lookup(lower, g, name, kind)
            case None => forall e :: e in es ==> !Answers(lower, name, kind, e)
            case Some(e) => exists i :: 0 <= i < |es| && es[i] == e && Answers(lower, name, kind, e)
                              && forall j :: 0 <= j < i ==> !Answers(lower, name, kind, es[j])
  {
    hide NormalizeName;
    var es, target := g.entities.Values(), lower(NormalizeName(name));
    FindFirst(lower, es, target, kind);
    forall e ensures NamedAs(lower, target, kind, e) == Answers(lower, name, kind, e) {
    }
  }

  // ---- search ------------------------------------------------------------------------------

  /** `needle` is a stretch of `s`. */
  ghost predicate Inside(needle: string, s: string) { exists a, b :: s == a + needle + b }

  lemma OccursIff(needle: string, s: string)
    ensures Occurs(needle, s) <==> Inside(needle, s)
  {
    if needle == "" {
      assert s == "" + needle + s;
    } else if Occurs(needle, s) {
      var k := IndexOf(s, needle);
      assert At(s, needle, k);
      assert s == s[..k] + needle + s[k + |needle|..];
    } else if Inside(needle, s) {
      var a, b :| s == a + needle + b;
      assert s[|a|..|a| + |needle|] == needle;
      assert At(s, needle, |a|);
    }
  }

  /** One of the two lower-cased texts contains the other. */
  ghost predicate Related(lower: string -> string, text: string, e: StoredEntity) {
    Inside(lower(NormalizeName(text)), lower(e.name)) || Inside(lower(e.name), lower(NormalizeName(text)))
  }

  lemma OverlapsIff(lower: string -> string, text: string, e: StoredEntity)
    ensures Overlaps(lower, lower(NormalizeName(text)), e) <==> Related(lower, text, e)
  {
    hide NormalizeName;
    OccursIff(lower(NormalizeName(text)), lower(e.name));
    OccursIff(lower(e.name), lower(NormalizeName(text)));
  }

  /** Everything that a search would list without a limit. */
  ghost predicate Ranking(lower: string -> string, es: seq<StoredEntity>, text: string, full: seq<StoredEntity>) {
    && (forall e :: multiset(full)[e] == if Related(lower, text, e) then multiset(es)[e] else 0)
    && (forall i, j :: 0 <= i < j < |full| ==> |full[i].name| <= |full[j].name|)
    && (forall a, b :: Before(es, a, b) && |a.name| == |b.name| && Related(lower, text, a) && Related(lower, text, b)
          ==> Before(full, a, b))
  }

  /** A search lists the stored entities related to the text, shorter names first and in
      stored order where the lengths agree, cut to the limit; an empty text finds nothing. */
  lemma SearchIs(lower: string -> string, g: Graph, text: string, limit: int) returns (full: seq<StoredEntity>)
    ensures Ranking(lower, g.entities.Values(), text, full)
    ensures Search(lower, g, text, limit) == if lower(NormalizeName(text)) == "" then [] else UpTo(full, limit)
  {
    hide NormalizeName, Overlaps, Before, Related;
    var es, needle := g.entities.Values(), lower(NormalizeName(text));
    var p := Overlapping(lower, needle);
    forall e ensures p(e) <==> Related(lower, text, e) {
      OverlapsIff(lower, text, e);
    }
    var matches := Filter(p, es);
    full := SortBy(matches, ByLength());
    SortByFacts(matches, ByLength());
    forall e ensures multiset(full)[e] == if Related(lower, text, e) then multiset(es)[e] else 0 {
      FilterCount(p, es, e);
    }
    forall i, j | 0 <= i < j < |full| ensures |full[i].name| <= |full[j].name| {
      assert ByLength()(full[i]) <= ByLength()(full[j]);
    }
    forall a, b | Before(es, a, b) && |a.name| == |b.name| && Related(lower, text, a) && Related(lower, text, b)
      ensures Before(full, a, b)
    {
      FilterOrder(p, es, a, b);
      SortKeepsOrder(matches, ByLength(), a, b);
    }
  }

  // ---- seeds --------------------------------------------------------------------------------

  /** The first stored entity of that name. */
  ghost predicate IsExact(lower: string -> string, g: Graph, name: string, e: StoredEntity) {
    var es := g.entities.Values();
    exists i :: 0 <= i < |es| && es[i] == e && Answers(lower, name, None, e)
      && forall j :: 0 <= j < i ==> !Answers(lower, name, None, es[j])
  }

  ghost predicate NoExact(lower: string -> string, g: Graph, name: string) {
    forall e :: e in g.entities.Values() ==> !Answers(lower, name, None, e)
  }

  /** For a name with an exact match that match is the only candidate; for any other name
      the candidates are the first three found. */
  lemma CandidatesAre(lower: string -> string, g: Graph, name: string)
    ensures (exists e :: IsExact(lower, g, name, e) && Candidates(lower, g, name) == [e])
         || (NoExact(lower, g, name) && Candidates(lower, g, name) == Search(lower, g, name, 3))
  {
    hide Answers, Search, Lookup;
    LookupIs(lower, g, name, None);
    match Lookup(lower, g, name, None)
    case None => assert NoExact(lower, g, name);
    case Some(e) => assert IsExact(lower, g, name, e);
  }

  lemma ExactUnique(lower: string -> string, g: Graph, name: string, e: StoredEntity, f: StoredEntity)
    requires IsExact(lower, g, name, e)
    ensures !NoExact(lower, g, name)
    ensures IsExact(lower, g, name, f) ==> e == f
  {
    hide Answers;
    var es := g.entities.Values();
    var i :| 0 <= i < |es| && es[i] == e && Answers(lower, name, None, e)
      && forall j :: 0 <= j < i ==> !Answers(lower, name, None, es[j]);
    if IsExact(lower, g, name, f) {
      var k :| 0 <= k < |es| && es[k] == f && Answers(lower, name, None, f)
        && forall j :: 0 <= j < k ==> !Answers(lower, name, None, es[j]);
      assert i == k;
    }
  }

  /** The seeds before the cut. */
  function Uncut(lower: string -> string, g: Graph, names: seq<string>): seq<StoredEntity> {
    Dedup(AllCandidates(lower, g, names), GraphRetriever.ById(), {})
  }

  lemma {:induction false} CandidateIn(lower: string -> string, g: Graph, names: seq<string>, i: nat, e: StoredEntity)
    requires i < |names| && e in Candidates(lower, g, names[i])
    ensures e in AllCandidates(lower, g, names)
  {
    hide Candidates;
    if i > 0 {
      CandidateIn(lower, g, names[1..], i - 1, e);
    }
  }

  lemma {:induction false} CandidateOf(lower: string -> string, g: Graph, names: seq<string>, e: StoredEntity)
    returns (i: nat)
    requires e in AllCandidates(lower, g, names)
    ensures i < |names| && e in Candidates(lower, g, names[i])
  {
    hide Candidates;
    if e in Candidates(lower, g, names[0]) {
      i := 0;
    } else {
      i := CandidateOf(lower, g, names[1..], e);
      assert names[1..][i] == names[i + 1];
      i := i + 1;
    }
  }

  /** The seeds are the first `maxEntities` of a list that holds each candidate of each name
      once: the exact match of every name that has one, and search results only for
      names that have none. */
  lemma SeedsAre(lower: string -> string, ws: string, g: Graph, names: seq<string>, maxEntities: int)
    requires GraphCore.WellFormed(lower, ws, g)
    ensures Seeds(lower, g, names, maxEntities) == UpTo(Uncut(lower, g, names), maxEntities)
    ensures forall i, e :: 0 <= i < |names| && IsExact(lower, g, names[i], e) ==> e in Uncut(lower, g, names)
    ensures forall i, e :: 0 <= i < |names| && NoExact(lower, g, names[i]) && e in Search(lower, g, names[i], 3)
              ==> e in Uncut(lower, g, names)
    ensures forall e :: e in Uncut(lower, g, names) ==>
              exists i :: 0 <= i < |names| &&
                (IsExact(lower, g, names[i], e)
                 || (NoExact(lower, g, names[i]) && e in Search(lower, g, names[i], 3)))
  {
    hide Candidates, Search, IsExact, NoExact, WellFormed, AllCandidates, Dedup;
    var all := AllCandidates(lower, g, names);
    DedupSound(all, GraphRetriever.ById(), {});
    forall i, e | 0 <= i < |names| && e in Candidates(lower, g, names[i]) ensures e in Uncut(lower, g, names) {
      CandidateIn(lower, g, names, i, e);
      Represented(lower, ws, g, names, e);
    }
    forall i, e | 0 <= i < |names| && IsExact(lower, g, names[i], e) ensures e in Uncut(lower, g, names) {
      OnlyExact(lower, g, names[i], e);
    }
    forall i, e | 0 <= i < |names| && NoExact(lower, g, names[i]) && e in Search(lower, g, names[i], 3)
      ensures e in Uncut(lower, g, names)
    {
      OnlyFound(lower, g, names[i]);
    }
    forall e | e in Uncut(lower, g, names)
      ensures exists i :: 0 <= i < |names| &&
                (IsExact(lower, g, names[i], e) || (NoExact(lower, g, names[i]) && e in Search(lower, g, names[i], 3)))
    {
      var i := CandidateOf(lower, g, names, e);
      CandidatesAre(lower, g, names[i]);
    }
  }

  lemma OnlyExact(lower: string -> string, g: Graph, name: string, e: StoredEntity)
    requires IsExact(lower, g, name, e)
    ensures Candidates(lower, g, name) == [e]
  {
    hide IsExact, NoExact, Candidates, Search;
    CandidatesAre(lower, g, name);
    ExactUnique(lower, g, name, e, e);
    if f :| IsExact(lower, g, name, f) && Candidates(lower, g, name) == [f] {
      ExactUnique(lower, g, name, e, f);
    }
  }

  lemma OnlyFound(lower: string -> string, g: Graph, name: string)
    requires NoExact(lower, g, name)
    ensures Candidates(lower, g, name) == Search(lower, g, name, 3)
  {
    hide IsExact, NoExact, Candidates, Search;
    CandidatesAre(lower, g, name);
    if e :| IsExact(lower, g, name, e) && Candidates(lower, g, name) == [e] {
      ExactUnique(lower, g, name, e, e);
      assert false;
    }
  }

  /** In a well-formed graph an id stands for one entity, so no candidate is lost. */
  lemma Represented(lower: string -> string, ws: string, g: Graph, names: seq<string>, e: StoredEntity)
    requires GraphCore.WellFormed(lower, ws, g) && e in AllCandidates(lower, g, names)
    ensures e in Uncut(lower, g, names)
  {
    hide WellFormed, AllCandidates, Dedup;
    var all := AllCandidates(lower, g, names);
    var k :| 0 <= k < |all| && all[k] == e;
    DedupKeeps(all, GraphRetriever.ById(), {}, k);
    DedupSound(all, GraphRetriever.ById(), {});
    var y :| y in Dedup(all, GraphRetriever.ById(), {}) && y.id == e.id;
    CandidatesStored(lower, g, names, e);
    CandidatesStored(lower, g, names, y);
    StoredUnderId(lower, ws, g, e);
    StoredUnderId(lower, ws, g, y);
  }
}

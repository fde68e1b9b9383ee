/** What a conjunctive query means, whichever engine answers it. A query is seen as one
    table per query word, giving for each document the number of occurrences of that word;
    a word that is not indexed has the empty table. */
module Queries {
  import opened Chains
  import opened StableSorts

  type Table = map<uint64, nat>

  /** SearchResult of hw2/memindex.h and docid_element_header of hw3/filelayout.h. */
  datatype SearchResult = SearchResult(docid: uint64, rank: uint32)

  /** Unsigned 32-bit addition. */
  function Add32(a: uint32, b: nat): uint32 {
    ((a as int + b) % TWO32) as uint32
  }

  /** The document holds every query word. */
  ghost predicate Matches(tables: seq<Table>, d: uint64) {
    forall i :: 0 <= i < |tables| ==> d in tables[i]
  }

  /** The number of occurrences of all query words in a matching document. */
  ghost function Occurrences(tables: seq<Table>, d: uint64): nat
    requires Matches(tables, d)
  {
    if tables == [] then 0
    else tables[|tables| - 1][d] + Occurrences(tables[..|tables| - 1], d)
  }

  ghost function Rank(tables: seq<Table>, d: uint64): uint32
    requires Matches(tables, d)
  {
    (Occurrences(tables, d) % TWO32) as uint32
  }

  /** Each matching document exactly once, with its rank, and nothing else. */
  ghost predicate Answers(tables: seq<Table>, results: seq<SearchResult>) {
    && DistinctDocs(results)
    && (forall r :: r in results ==> Matches(tables, r.docid) && r.rank == Rank(tables, r.docid))
    && (forall d :: Matches(tables, d) ==> SearchResult(d, Rank(tables, d)) in results)
  }

  ghost predicate DistinctDocs(results: seq<SearchResult>) {
    forall i, j :: 0 <= i < j < |results| ==> results[i].docid != results[j].docid
  }

  ghost predicate BestFirst(results: seq<SearchResult>) {
    forall i, j :: 0 <= i < j < |results| ==> results[i].rank >= results[j].rank
  }

  /** The results that also occur in one more table, with their ranks raised. */
  ghost function Keep(table: Table, results: seq<SearchResult>): seq<SearchResult> {
    if results == [] then []
    else
      var kept, last := Keep(table, results[..|results| - 1]), results[|results| - 1];
      if last.docid in table then kept + [SearchResult(last.docid, Add32(last.rank, table[last.docid]))] else kept
  }

  lemma {:induction false} KeepMembers(table: Table, results: seq<SearchResult>)
    requires DistinctDocs(results)
    ensures DistinctDocs(Keep(table, results))
    ensures forall r :: r in Keep(table, results) ==>
      r.docid in table && exists q :: q in results && q.docid == r.docid && r.rank == Add32(q.rank, table[r.docid])
    ensures forall q :: q in results && q.docid in table ==>
      SearchResult(q.docid, Add32(q.rank, table[q.docid])) in Keep(table, results)
  {
    if results != [] {
      var init, last := results[..|results| - 1], results[|results| - 1];
      KeepMembers(table, init);
      assert results == init + [last];
      if last.docid in table {
        forall r | r in Keep(table, init)
          ensures r.docid != last.docid
        {
          var q :| q in init && q.docid == r.docid;
        }
      }
    }
  }

  lemma MatchesOneMore(tables: seq<Table>, table: Table, d: uint64)
    ensures Matches(tables + [table], d) <==> Matches(tables, d) && d in table
    ensures Matches(tables + [table], d) ==>
      Rank(tables + [table], d) == Add32(Rank(tables, d), table[d])
  {}

  /** One more query word: keeping exactly the results that have it answers the longer query. */
  lemma KeepAnswers(tables: seq<Table>, table: Table, results: seq<SearchResult>)
    requires Answers(tables, results)
    ensures Answers(tables + [table], Keep(table, results))
  {
    hide Rank, Matches, Keep, Add32;
    KeepMembers(table, results);
    var all, kept := tables + [table], Keep(table, results);
    forall r | r in kept
      ensures Matches(all, r.docid) && r.rank == Rank(all, r.docid)
    {
      MatchesOneMore(tables, table, r.docid);
    }
    forall d | Matches(all, d)
      ensures SearchResult(d, Rank(all, d)) in kept
    {
      MatchesOneMore(tables, table, d);
      var q := SearchResult(d, Rank(tables, d));
      assert q in results;
    }
  }

  /** The order of the results does not matter to what they say. */
  lemma PermutedAnswers(tables: seq<Table>, results: seq<SearchResult>, sorted: seq<SearchResult>)
    requires Answers(tables, results) && multiset(sorted) == multiset(results)
    ensures Answers(tables, sorted)
  {
    hide Rank, Matches;
    PermutationElements(sorted, results);
    forall i, j | 0 <= i < j < |sorted|
      ensures sorted[i].docid != sorted[j].docid
    {
      if sorted[i].docid == sorted[j].docid {
        assert sorted[i] in sorted && sorted[j] in sorted;
        assert sorted[i] == sorted[j];
        TwiceInSequence(sorted, i, j);
        OnceInDistinct(results, sorted[i]);
        assert false;
      }
    }
  }

  lemma TwiceInSequence<T>(s: seq<T>, i: nat, j: nat)
    requires i < j < |s| && s[i] == s[j]
    ensures multiset(s)[s[i]] >= 2
  {
    assert s == s[..i] + [s[i]] + s[i + 1..j] + [s[j]] + s[j + 1..];
  }

  lemma OnceInDistinct(s: seq<SearchResult>, r: SearchResult)
    requires DistinctDocs(s)
    ensures multiset(s)[r] <= 1
  {
    if r in s {
      var i :| 0 <= i < |s| && s[i] == r;
      assert s == s[..i] + [s[i]] + s[i + 1..];
    }
  }

  /** An answer, best ranks first, is unique up to the order of ties: any two have the
      same documents with the same ranks. */
  lemma AnswersAgree(tables: seq<Table>, a: seq<SearchResult>, b: seq<SearchResult>)
    requires Answers(tables, a) && Answers(tables, b)
    ensures multiset(a) == multiset(b)
  {
    hide Rank, Matches;
    forall r: SearchResult
      ensures multiset(a)[r] == multiset(b)[r]
    {
      OnceInDistinct(a, r);
      OnceInDistinct(b, r);
      assert r in a <==> r in b;
      assert r in multiset(a) <==> r in a;
      assert r in multiset(b) <==> r in b;
    }
  }

  /** No document matches exactly when the answer is empty. */
  lemma EmptyAnswer(tables: seq<Table>, results: seq<SearchResult>)
    requires Answers(tables, results)
    ensures results == [] <==> forall d :: !Matches(tables, d)
  {
    hide Matches, Rank;
    if results != [] {
      assert results[0] in results;
    }
  }
}

/** `search_query` of modules/searcher.py: the input guards, the collection of
    the retrieved documents' stored fields, the pairing of each hit with its
    similarity score, the stable descending sort by score and the `top_k` cut.
    The full-text retrieval and the vectoriser are foreign libraries; what they
    return (or that they raise) is given as input. */
module Searcher {
  import opened Text
  import opened Indexer

  /** `(title, source, content)` of one retrieved document. */
  datatype Hit = Hit(title: string, source: string, content: string)

  /** `(hit, cosine_score)`. */
  datatype ScoredHit = ScoredHit(hit: Hit, score: real)

  /** What opening the index and running the parsed query gives. */
  datatype Retrieval =
    | Retrieved(docs: seq<Document>)     // the matching documents, in the library's order
    | RetrievalFailed(reason: string)    // opening, parsing or searching raises; reason is str(e)

  /** What vectorising the query and the hits' contents gives. */
  datatype Scoring =
    | Scores(values: seq<real>)          // the flattened cosine similarities, one per hit
    | VectorizeFailed(reason: string)    // fitting the vectoriser or scoring raises

  /** The returned list: plain hits when no ranking happened, scored hits otherwise. */
  datatype Results = Unscored(hits: seq<Hit>) | Ranked(pairs: seq<ScoredHit>)

  /** Why the outer handler returned an error. */
  datatype Cause =
    | Raised(reason: string)             // an exception from the retrieval library
    | ScoreIndexOutOfRange(index: nat)   // `cosine_scores[i]` past the end of the scores

  /** The status the search reports with its results. */
  datatype Message =
    | EmptyQuery
    | IndexMissing
    | NoDocuments
    | UnrankedDone(reason: string)
    | RankedDone
    | Failed(cause: Cause)

  /** Whether the status is one of the error statuses that come with an empty list. */
  predicate IsError(m: Message) {
    m.EmptyQuery? || m.IndexMissing? || m.NoDocuments? || m.Failed?
  }

  function CauseText(c: Cause): string {
    match c
    case Raised(reason) => reason
    case ScoreIndexOutOfRange(index) => "index " + NatToString(index) + " is out of bounds"
  }

  /** The status text the source returns. */
  function MessageText(m: Message): string {
    match m
    case EmptyQuery => "\U{274C} Query tidak boleh kosong!"
    case IndexMissing => "\U{274C} Index belum dibuat!"
    case NoDocuments => "\U{274C} Tidak ada dokumen ditemukan!"
    case UnrankedDone(reason) => "\U{26A0}\U{FE0F}  Pencarian selesai (tanpa ranking): " + reason
    case RankedDone => "\U{2705} Pencarian selesai!"
    case Failed(cause) => "\U{274C} Error: " + CauseText(cause)
  }

  /** Error statuses, and only they, start with the cross mark; the two
      completion statuses start with the warning sign or the check mark. */
  lemma MessageMarks(m: Message)
    ensures MessageText(m) != []
    ensures MessageText(m)[0] == '\U{274C}' <==> IsError(m)
    ensures m.UnrankedDone? ==> MessageText(m)[0] == '\U{26A0}'
    ensures m.RankedDone? ==> MessageText(m)[0] == '\U{2705}'
  {
  }

  // ------------------------------------------------------------ hits and scores

  function HitOf(d: Document): Hit {
    Hit(d.title, d.source, d.content)
  }

  /** The first `k` entries of `s`, or all of them if there are fewer: `s[:k]`. */
  function Take<T>(s: seq<T>, k: nat): (r: seq<T>)
    ensures r <= s
    ensures |r| == if k < |s| then k else |s|
  {
    if k < |s| then s[..k] else s
  }

  /** The loop over the retrieved documents: each hit's stored title, source and
      content, in retrieval order. */
  method CollectHits(docs: seq<Document>) returns (hits: seq<Hit>)
    ensures |hits| == |docs|
    ensures forall j :: 0 <= j < |docs| ==> hits[j] == Hit(docs[j].title, docs[j].source, docs[j].content)
  {
    hits := [];
    var i := 0;
    while i < |docs|
      invariant 0 <= i <= |docs|
      invariant |hits| == i
      invariant forall j :: 0 <= j < i ==> hits[j] == HitOf(docs[j])
    {
      hits := hits + [HitOf(docs[i])];
      i := i + 1;
    }
  }

  /** The loop pairing the `i`-th hit with the `i`-th score. It needs a score for
      every hit; extra scores are ignored. */
  method PairScores(hits: seq<Hit>, scores: seq<real>) returns (ranked: seq<ScoredHit>)
    requires |hits| <= |scores|
    ensures |ranked| == |hits|
    ensures forall j :: 0 <= j < |hits| ==> ranked[j] == ScoredHit(hits[j], scores[j])
  {
    ranked := [];
    var i := 0;
    while i < |hits|
      invariant 0 <= i <= |hits|
      invariant |ranked| == i
      invariant forall j :: 0 <= j < i ==> ranked[j] == ScoredHit(hits[j], scores[j])
    {
      ranked := ranked + [ScoredHit(hits[i], scores[i])];
      i := i + 1;
    }
  }

  // ------------------------------------------------------------ the stable descending sort

  /** Scores never increase from left to right. */
  predicate SortedDesc(s: seq<ScoredHit>) {
    forall k, l :: 0 <= k < l < |s| ==> s[k].score >= s[l].score
  }

  /** Insert `x` into `s` after every entry whose score is at least `x`'s: the
      place a stable descending sort gives an entry that comes after all of `s`. */
  function Insert(s: seq<ScoredHit>, x: ScoredHit): (r: seq<ScoredHit>)
    ensures |r| == |s| + 1
  {
    if s == [] then [x]
    else if s[|s| - 1].score >= x.score then s + [x]
    else Insert(s[..|s| - 1], x) + [s[|s| - 1]]
  }

  /** `sorted(s, key=score, reverse=True)`: the entries of `s` inserted one by one. */
  function SortDesc(s: seq<ScoredHit>): (r: seq<ScoredHit>)
    ensures |r| == |s|
  {
    if s == [] then [] else Insert(SortDesc(s[..|s| - 1]), s[|s| - 1])
  }

  /** The entries of `s` whose score is `v`, in order. */
  function WithScore(s: seq<ScoredHit>, v: real): seq<ScoredHit> {
    if s == [] then []
    else WithScore(s[..|s| - 1], v) + (if s[|s| - 1].score == v then [s[|s| - 1]] else [])
  }

  lemma {:induction false} WithScoreAppend(a: seq<ScoredHit>, b: seq<ScoredHit>, v: real)
    ensures WithScore(a + b, v) == WithScore(a, v) + WithScore(b, v)
  {
    if b == [] {
      assert a + b == a;
    } else {
      assert (a + b)[..|a + b| - 1] == a + b[..|b| - 1];
      WithScoreAppend(a, b[..|b| - 1], v);
    }
  }

  /** Where `Insert` puts `x`: after the entries from the end that score below `x`. */
  function InsertPos(s: seq<ScoredHit>, x: ScoredHit): (j: nat)
    ensures j <= |s|
    ensures forall k :: j <= k < |s| ==> s[k].score < x.score
    ensures j == 0 || s[j - 1].score >= x.score
  {
    if s == [] || s[|s| - 1].score >= x.score then |s| else InsertPos(s[..|s| - 1], x)
  }

  /** `Insert` puts `x` between the entries before `InsertPos` and those after. */
  lemma InsertIsSplice(s: seq<ScoredHit>, x: ScoredHit)
    ensures var j := InsertPos(s, x); Insert(s, x) == s[..j] + [x] + s[j..]
  {
    InsertAt(s, x, InsertPos(s, x));
  }

  /** Inserting adds exactly `x`. */
  lemma InsertPermutation(s: seq<ScoredHit>, x: ScoredHit)
    ensures multiset(Insert(s, x)) == multiset(s) + multiset{x}
  {
    var j := InsertPos(s, x);
    InsertIsSplice(s, x);
    var front, back := s[..j], s[j..];
    assert s == front + back;
    assert multiset(s) == multiset(front) + multiset(back);
    assert multiset(Insert(s, x)) == multiset(front) + multiset{x} + multiset(back);
  }

  /** Inserting into a sorted list keeps it sorted. */
  lemma InsertSorted(s: seq<ScoredHit>, x: ScoredHit)
    requires SortedDesc(s)
    ensures SortedDesc(Insert(s, x))
  {
    var j := InsertPos(s, x);
    InsertIsSplice(s, x);
    var front := s[..j] + [x];
    var r := front + s[j..];
    forall m | j < m < |r| ensures r[m] == s[m - 1] {
      assert r[m] == s[j..][m - |front|];
    }
    SortedSplice(s, x, j, r);
  }

  lemma SortedSplice(s: seq<ScoredHit>, x: ScoredHit, j: nat, r: seq<ScoredHit>)
    requires SortedDesc(s) && j <= |s| && |r| == |s| + 1
    requires forall m :: 0 <= m < j ==> r[m] == s[m]
    requires r[j] == x
    requires forall m :: j < m < |r| ==> r[m] == s[m - 1]
    requires forall k :: j <= k < |s| ==> s[k].score < x.score
    requires j == 0 || s[j - 1].score >= x.score
    ensures SortedDesc(r)
  {
    forall k, l | 0 <= k < l < |r| ensures r[k].score >= r[l].score {
      if l < j {
        assert r[k] == s[k] && r[l] == s[l];
      } else if l == j {
        assert r[k] == s[k] && s[k].score >= s[j - 1].score;
      } else if k < j {
        assert r[k] == s[k] && r[l] == s[l - 1] && s[k].score >= s[j - 1].score;
      } else if k == j {
        assert r[l] == s[l - 1];
      } else {
        assert r[k] == s[k - 1] && r[l] == s[l - 1];
      }
    }
  }

  /** Entries with a given score come out of `Insert` in the order they went in;
      this needs no assumption about `s`. */
  lemma {:induction false} InsertKeepsScoreOrder(s: seq<ScoredHit>, x: ScoredHit, v: real)
    ensures WithScore(Insert(s, x), v) == WithScore(s, v) + (if x.score == v then [x] else [])
  {
    if s == [] {
      assert WithScore([x], v) == WithScore([], v) + (if x.score == v then [x] else []);
    } else if s[|s| - 1].score >= x.score {
      WithScoreAppend(s, [x], v);
      assert WithScore([x], v) == WithScore([], v) + (if x.score == v then [x] else []);
    } else {
      var init, last := s[..|s| - 1], s[|s| - 1];
      InsertKeepsScoreOrder(init, x, v);
      WithScoreAppend(Insert(init, x), [last], v);
      assert WithScore([last], v) == WithScore([], v) + (if last.score == v then [last] else []);
    }
  }

  /** The sort result is ordered by non-increasing score. */
  lemma {:induction false} SortDescSorted(s: seq<ScoredHit>)
    ensures SortedDesc(SortDesc(s))
  {
    if s != [] {
      SortDescSorted(s[..|s| - 1]);
      InsertSorted(SortDesc(s[..|s| - 1]), s[|s| - 1]);
    }
  }

  /** The sort result is a permutation of its input. */
  lemma {:induction false} SortDescPermutation(s: seq<ScoredHit>)
    ensures multiset(SortDesc(s)) == multiset(s)
  {
    if s != [] {
      var init, last := s[..|s| - 1], s[|s| - 1];
      SortDescPermutation(init);
      InsertPermutation(SortDesc(init), last);
      assert s == init + [last];
    }
  }

  /** The sort is stable: for every score, the entries with that score appear in
      the output in exactly their input order. */
  lemma {:induction false} SortDescStable(s: seq<ScoredHit>, v: real)
    ensures WithScore(SortDesc(s), v) == WithScore(s, v)
  {
    if s != [] {
      var init := s[..|s| - 1];
      SortDescStable(init, v);
      InsertKeepsScoreOrder(SortDesc(init), s[|s| - 1], v);
    }
  }

  /** Stable and sorted pin the result down: any arrangement of the same entries
      that is sorted by score and keeps every score's entries in input order is
      `SortDesc(s)`. */
  lemma {:induction false} SortDescUnique(s: seq<ScoredHit>, t: seq<ScoredHit>)
    requires SortedDesc(t) && multiset(t) == multiset(s)
    requires forall v :: WithScore(t, v) == WithScore(s, v)
    ensures t == SortDesc(s)
  {
    SortDescSorted(s);
    forall v ensures WithScore(t, v) == WithScore(SortDesc(s), v) {
      SortDescStable(s, v);
    }
    SortedSameGroupsEqual(t, SortDesc(s));
  }

  /** Two lists sorted by non-increasing score with the same entries of every score
      in the same order are equal. */
  lemma {:induction false} SortedSameGroupsEqual(a: seq<ScoredHit>, b: seq<ScoredHit>)
    requires SortedDesc(a) && SortedDesc(b)
    requires forall v :: WithScore(a, v) == WithScore(b, v)
    ensures a == b
    decreases |a|
  {
    if b != [] {
      InSameGroup(b, a, b[|b| - 1]);
    }
    if a != [] {
      InSameGroup(a, b, a[|a| - 1]);
      var la, lb := a[|a| - 1], b[|b| - 1];
      var a', b' := a[..|a| - 1], b[..|b| - 1];
      LastScoresAgree(a, b);
      DropLastOfGroups(a, b, a', b');
      SortedSameGroupsEqual(a', b');
      assert a == a' + [la] && b == b' + [lb];
    }
  }

  /** Two lists whose last entries have the same score and that agree on every
      score's entries have the same last entry, and agree once it is dropped. */
  lemma DropLastOfGroups(a: seq<ScoredHit>, b: seq<ScoredHit>, a': seq<ScoredHit>, b': seq<ScoredHit>)
    requires a != [] && b != [] && a[|a| - 1].score == b[|b| - 1].score
    requires a' == a[..|a| - 1] && b' == b[..|b| - 1]
    requires forall v :: WithScore(a, v) == WithScore(b, v)
    ensures a[|a| - 1] == b[|b| - 1]
    ensures forall w :: WithScore(a', w) == WithScore(b', w)
  {
    var la, lb := a[|a| - 1], b[|b| - 1];
    var v := la.score;
    var ga, gb := WithScore(a, v), WithScore(b, v);
    assert ga == WithScore(a', v) + [la];
    assert gb == WithScore(b', v) + [lb];
    assert ga[|ga| - 1] == la && gb[|gb| - 1] == lb;
    assert ga[..|ga| - 1] == WithScore(a', v);
    forall w ensures WithScore(a', w) == WithScore(b', w) {
      if w != v {
        assert WithScore(a, w) == WithScore(a', w);
        assert WithScore(b, w) == WithScore(b', w);
      }
    }
  }

  /** `x` is in `WithScore(s, v)` exactly when it is in `s` with score `v`. */
  lemma {:induction false} WithScoreMembers(s: seq<ScoredHit>, v: real, x: ScoredHit)
    ensures x in WithScore(s, v) <==> x in s && x.score == v
  {
    if s != [] {
      var init := s[..|s| - 1];
      WithScoreMembers(init, v, x);
      assert s == init + [s[|s| - 1]];
    }
  }

  /** An entry of `a` is in any `b` with the same entries of its score. */
  lemma InSameGroup(a: seq<ScoredHit>, b: seq<ScoredHit>, x: ScoredHit)
    requires x in a && WithScore(a, x.score) == WithScore(b, x.score)
    ensures x in b
  {
    WithScoreMembers(a, x.score, x);
    WithScoreMembers(b, x.score, x);
  }

  /** With the same entries per score, two sorted non-empty lists end with the
      same (lowest) score. */
  lemma LastScoresAgree(a: seq<ScoredHit>, b: seq<ScoredHit>)
    requires SortedDesc(a) && SortedDesc(b) && a != [] && b != []
    requires forall v :: WithScore(a, v) == WithScore(b, v)
    ensures a[|a| - 1].score == b[|b| - 1].score
  {
    var la, lb := a[|a| - 1], b[|b| - 1];
    assert WithScore(a, la.score) == WithScore(b, la.score);
    assert WithScore(b, lb.score) == WithScore(a, lb.score);
    InSameGroup(a, b, la);
    InSameGroup(b, a, lb);
    AtLeastLast(b, la);
    AtLeastLast(a, lb);
  }

  /** Every entry of a sorted list scores at least as much as its last one. */
  lemma AtLeastLast(s: seq<ScoredHit>, x: ScoredHit)
    requires SortedDesc(s) && x in s
    ensures x.score >= s[|s| - 1].score
  {
    var i :| 0 <= i < |s| && s[i] == x;
    if i < |s| - 1 {
      assert s[i].score >= s[|s| - 1].score;
    }
  }

  /** `ranked_docs.sort(key=lambda x: x[1], reverse=True)`: an in-place insertion
      sort that moves each entry left past the entries with a strictly smaller
      score, which keeps equal scores in their original order. */
  method SortByScore(a: array<ScoredHit>)
    modifies a
    ensures a[..] == SortDesc(old(a[..]))
  {
    ghost var s := a[..];
    var i := 0;
    while i < a.Length
      invariant 0 <= i <= a.Length
      invariant a[..] == SortDesc(s[..i]) + s[i..]
    {
      ghost var sorted := SortDesc(s[..i]);
      assert a[..i] == sorted && a[i] == s[i] && a[i + 1..] == s[i + 1..];
      InsertLast(a, i);
      assert s[..i + 1][..i] == s[..i] && s[..i + 1][i] == s[i];
      i := i + 1;
    }
    assert s[..a.Length] == s && s[a.Length..] == [];
  }

  /** One pass of the insertion sort: move `a[i]` left past the entries of
      `a[..i]` that score strictly below it. */
  method InsertLast(a: array<ScoredHit>, i: nat)
    requires i < a.Length
    modifies a
    ensures a[..] == Insert(old(a[..i]), old(a[i])) + old(a[i + 1..])
  {
    ghost var p, rest := a[..i], a[i + 1..];
    var x := a[i];
    var j := ShiftRight(a, i);
    a[j] := x;
    InsertAt(p, x, j);
    ShiftedIsSplice(p, x, j, rest, a[..]);
  }

  /** Move the entries before `a[i]` that score strictly below it one place to the
      right, from the nearest one outwards, and return the slot this frees. */
  method ShiftRight(a: array<ScoredHit>, i: nat) returns (j: nat)
    requires i < a.Length
    modifies a
    ensures j <= i
    ensures forall k :: 0 <= k < j ==> a[k] == old(a[k])
    ensures forall k :: j < k <= i ==> a[k] == old(a[k - 1])
    ensures forall k :: i < k < a.Length ==> a[k] == old(a[k])
    ensures forall k :: j <= k < i ==> old(a[k]).score < old(a[i]).score
    ensures j == 0 || old(a[j - 1]).score >= old(a[i]).score
  {
    ghost var p := a[..];
    var x := a[i];
    j := i;
    while j > 0 && a[j - 1].score < x.score
      invariant 0 <= j <= i
      invariant forall k :: 0 <= k < j ==> a[k] == p[k]
      invariant forall k :: j < k <= i ==> a[k] == p[k - 1]
      invariant forall k :: i < k < a.Length ==> a[k] == p[k]
      invariant forall k :: j <= k < i ==> p[k].score < x.score
    {
      a[j] := a[j - 1];
      j := j - 1;
    }
  }

  /** A list that agrees with `p` before `j`, holds `x` at `j`, holds `p`'s
      entries from `j` on one place further right, and then `rest`, is that splice. */
  lemma ShiftedIsSplice(p: seq<ScoredHit>, x: ScoredHit, j: nat, rest: seq<ScoredHit>, t: seq<ScoredHit>)
    requires j <= |p| && |t| == |p| + 1 + |rest|
    requires forall k :: 0 <= k < j ==> t[k] == p[k]
    requires t[j] == x
    requires forall k :: j < k <= |p| ==> t[k] == p[k - 1]
    requires forall k :: |p| < k < |t| ==> t[k] == rest[k - |p| - 1]
    ensures t == p[..j] + [x] + p[j..] + rest
  {
    var r := p[..j] + [x] + p[j..] + rest;
    forall k | 0 <= k < |t| ensures t[k] == r[k] {
      if k < j {
      } else if k == j {
      } else if k <= |p| {
        assert r[k] == p[j..][k - j - 1];
      } else {
        assert r[k] == rest[k - |p| - 1];
      }
    }
  }

  /** Inserting `x` into `p` where every entry from `j` on scores below `x` and the
      entry before `j` (if any) does not: `x` lands at position `j`. */
  lemma {:induction false} InsertAt(p: seq<ScoredHit>, x: ScoredHit, j: nat)
    requires j <= |p|
    requires forall k :: j <= k < |p| ==> p[k].score < x.score
    requires j == 0 || p[j - 1].score >= x.score
    ensures Insert(p, x) == p[..j] + [x] + p[j..]
    decreases |p| - j
  {
    if j == |p| {
      assert p[..j] == p && p[j..] == [];
    } else {
      var init := p[..|p| - 1];
      assert init[..j] == p[..j];
      InsertAt(init, x, j);
      assert p[j..] == init[j..] + [p[|p| - 1]];
    }
  }

  // ------------------------------------------------------------ the search

  /** The hits the retrieval loop collects from the matching documents. */
  function Hits(docs: seq<Document>): (r: seq<Hit>)
    ensures |r| == |docs|
  {
    seq(|docs|, j requires 0 <= j < |docs| => HitOf(docs[j]))
  }

  /** The list the ranking sorts: the `j`-th hit with the `j`-th score. */
  function Pairs(hits: seq<Hit>, scores: seq<real>): (r: seq<ScoredHit>)
    requires |hits| <= |scores|
    ensures |r| == |hits|
  {
    seq(|hits|, j requires 0 <= j < |hits| => ScoredHit(hits[j], scores[j]))
  }

  /** The ranked path: pair every hit with its score, sort in place by descending
      score and keep the first `topK`. The result has `min(N, topK)` entries in
      non-increasing score order, each of them some hit with its own score and
      none used twice, and for every score the entries with that score are the
      first ones of that score in retrieval order. */
  method Rank(hits: seq<Hit>, scores: seq<real>, topK: nat) returns (pairs: seq<ScoredHit>)
    requires |hits| <= |scores|
    ensures pairs == Take(SortDesc(Pairs(hits, scores)), topK)
    ensures |pairs| == if topK < |hits| then topK else |hits|
    ensures SortedDesc(pairs)
    ensures forall p :: p in pairs ==> exists j :: 0 <= j < |hits| && p == ScoredHit(hits[j], scores[j])
    ensures multiset(pairs) <= multiset(Pairs(hits, scores))
    ensures forall v :: WithScore(pairs, v) <= WithScore(Pairs(hits, scores), v)
  {
    var ranked := PairScores(hits, scores);
    assert ranked == Pairs(hits, scores);
    var a := new ScoredHit[|ranked|](k requires 0 <= k < |ranked| => ranked[k]);
    assert a[..] == ranked;
    SortByScore(a);
    pairs := Take(a[..], topK);
    TakeOfSorted(SortDesc(ranked), topK);
    SortDescSorted(ranked);
    SortDescPermutation(ranked);
    forall p | p in pairs
      ensures exists j :: 0 <= j < |hits| && p == ScoredHit(hits[j], scores[j])
    {
      assert p in multiset(ranked);
      var j :| 0 <= j < |ranked| && ranked[j] == p;
    }
    forall v ensures WithScore(pairs, v) <= WithScore(ranked, v) {
      SortDescStable(ranked, v);
    }
  }

  /** A prefix of a sorted list is sorted, holds part of its entries, and keeps
      for every score a prefix of that score's entries. */
  lemma TakeOfSorted(s: seq<ScoredHit>, k: nat)
    ensures SortedDesc(s) ==> SortedDesc(Take(s, k))
    ensures multiset(Take(s, k)) <= multiset(s)
    ensures forall v :: WithScore(Take(s, k), v) <= WithScore(s, v)
  {
    var t := Take(s, k);
    assert s == t + s[|t|..];
    forall v ensures WithScore(t, v) <= WithScore(s, v) {
      WithScoreAppend(t, s[|t|..], v);
    }
  }

  /** `search_query(index_folder, query, top_k)`. `indexExists` is the index-folder
      test, `retrieval` what the retrieval library returns for the query, and
      `scoring` what vectorising the query and the hits' contents returns.
      Every path that ends in an error returns an empty list. */
  method SearchQuery(indexExists: bool, query: string, retrieval: Retrieval, scoring: Scoring, topK: nat)
    returns (results: Results, msg: Message)
    ensures IsError(msg) ==> results == Unscored([])
    ensures Strip(query) == [] ==> results == Unscored([]) && msg == EmptyQuery
    ensures Strip(query) != [] && !indexExists ==> results == Unscored([]) && msg == IndexMissing
    ensures Strip(query) != [] && indexExists && retrieval.RetrievalFailed? ==>
              results == Unscored([]) && msg == Failed(Raised(retrieval.reason))
    ensures Strip(query) != [] && indexExists && retrieval.Retrieved? && retrieval.docs == [] ==>
              results == Unscored([]) && msg == NoDocuments
    ensures Strip(query) != [] && indexExists && retrieval.Retrieved? && retrieval.docs != []
            && scoring.VectorizeFailed? ==>
              results == Unscored(Take(Hits(retrieval.docs), topK)) && msg == UnrankedDone(scoring.reason)
    ensures Strip(query) != [] && indexExists && retrieval.Retrieved? && retrieval.docs != []
            && scoring.Scores? && |scoring.values| < |retrieval.docs| ==>
              results == Unscored([]) && msg == Failed(ScoreIndexOutOfRange(|scoring.values|))
    ensures Strip(query) != [] && indexExists && retrieval.Retrieved? && retrieval.docs != []
            && scoring.Scores? && |scoring.values| >= |retrieval.docs| ==>
              && results == Ranked(Take(SortDesc(Pairs(Hits(retrieval.docs), scoring.values)), topK))
              && msg == RankedDone
  {
    if Strip(query) == [] {
      return Unscored([]), EmptyQuery;
    }
    if !indexExists {
      return Unscored([]), IndexMissing;
    }
    if retrieval.RetrievalFailed? {
      return Unscored([]), Failed(Raised(retrieval.reason));
    }
    var hits := CollectHits(retrieval.docs);
    assert hits == Hits(retrieval.docs);
    if hits == [] {
      return Unscored([]), NoDocuments;
    }
    if scoring.VectorizeFailed? {
      return Unscored(Take(hits, topK)), UnrankedDone(scoring.reason);
    }
    if |scoring.values| < |hits| {
      return Unscored([]), Failed(ScoreIndexOutOfRange(|scoring.values|));
    }
    var pairs := Rank(hits, scoring.values, topK);
    return Ranked(pairs), RankedDone;
  }
}

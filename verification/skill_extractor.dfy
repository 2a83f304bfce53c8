/** Keyword skill extraction and career-domain ranking
    (app/services/skill_extractor.py).

    The skills database is an ordered map from a domain name to a record
    whose optional "skills" key holds a list of skill names. The extractor
    keeps it and the flattened, lower-cased vocabulary; neither changes
    after construction, so both are `const` fields. */
module SkillExtraction {
  import opened Wrappers
  import opened Text

  /** One entry of the skills database: the domain name and the value of
      its "skills" key, `None` when the key is absent. */
  datatype DomainEntry = DomainEntry(name: string, skills: Option<seq<string>>)

  /** `data.get("skills", [])` */
  function DomainSkills(d: DomainEntry): seq<string>
  {
    match d.skills
    case None => []
    case Some(ss) => ss
  }

  function LowerSet(ss: seq<string>): set<string>
  {
    set s | s in ss :: Lower(s)
  }

  /** The keys of a JSON object are distinct. */
  predicate DistinctNames(data: seq<DomainEntry>)
  {
    forall i, j :: 0 <= i < j < |data| ==> data[i].name != data[j].name
  }

  /** The vocabulary of the first domains, domain after domain. */
  function Vocabulary(data: seq<DomainEntry>): (v: set<string>)
    ensures forall w :: w in v ==> IsLower(w)
  {
    if data == [] then {}
    else Vocabulary(data[..|data| - 1]) + LowerSet(DomainSkills(data[|data| - 1]))
  }

  /** The vocabulary is exactly the lower-cased entries of every domain's
      skill list; a domain without the key contributes nothing. */
  lemma {:induction false} VocabularyIsLoweredEntries(data: seq<DomainEntry>, w: string)
    ensures w in Vocabulary(data) <==>
            exists i, j :: 0 <= i < |data| && 0 <= j < |DomainSkills(data[i])|
                           && w == Lower(DomainSkills(data[i])[j])
  {
    if data != [] {
      var init := data[..|data| - 1];
      VocabularyIsLoweredEntries(init, w);
      var last := DomainSkills(data[|data| - 1]);
      if w in LowerSet(last) {
        var s :| s in last && w == Lower(s);
        var j :| 0 <= j < |last| && last[j] == s;
        assert w == Lower(DomainSkills(data[|data| - 1])[j]);
      }
      if exists i, j :: 0 <= i < |data| && 0 <= j < |DomainSkills(data[i])|
                        && w == Lower(DomainSkills(data[i])[j]) {
        var i, j :| 0 <= i < |data| && 0 <= j < |DomainSkills(data[i])|
                    && w == Lower(DomainSkills(data[i])[j]);
        if i < |data| - 1 {
          assert data[i] == init[i];
        } else {
          assert DomainSkills(data[i])[j] in last;
        }
      }
    }
  }

  /** A domain whose record lacks the "skills" key adds no skill. */
  lemma {:induction false} MissingSkillsKeyAddsNothing(data: seq<DomainEntry>, name: string)
    ensures Vocabulary(data + [DomainEntry(name, None)]) == Vocabulary(data)
  {
    assert (data + [DomainEntry(name, None)])[..|data|] == data;
  }

  /** Regex `\b` at position `i`: exactly one side of the position is a
      word character (outside the string counts as a non-word character). */
  predicate WordBoundary(t: string, i: nat)
    requires i <= |t|
  {
    (i > 0 && IsWordChar(t[i - 1])) != (i < |t| && IsWordChar(t[i]))
  }

  /** `re.search(r'\b' + re.escape(w) + r'\b', t)` matches at position `i`. */
  predicate WordAt(t: string, w: string, i: nat)
  {
    StartsWithAt(t, i, w) && WordBoundary(t, i) && WordBoundary(t, i + |w|)
  }

  predicate OccursAsWord(t: string, w: string)
  {
    exists i: nat | i <= |t| :: WordAt(t, w, i)
  }

  /** The skills of `vocabulary` that `extract_skills` reports for `text`. */
  function FoundSkills(vocabulary: set<string>, text: string): set<string>
  {
    set w | w in vocabulary && OccursAsWord(Lower(text), w)
  }

  /** Matching is done on the lower-cased text, so the text's case is
      irrelevant. */
  lemma FoundSkillsIgnoreCase(vocabulary: set<string>, text: string)
    ensures FoundSkills(vocabulary, Lower(text)) == FoundSkills(vocabulary, text)
  {
    LowerIdempotent(text);
  }

  /** Upper-case letters in a vocabulary entry can never be found, since the
      text is lower-cased; the vocabulary built from the database is always
      lower case, so this does not arise there. */
  lemma {:induction false} UpperCaseSkillNeverFound(vocabulary: set<string>, text: string, w: string)
    requires exists k :: 0 <= k < |w| && 'A' <= w[k] <= 'Z'
    ensures w !in FoundSkills(vocabulary, text)
  {
  }

  function Names(scores: seq<(string, nat)>): (r: seq<string>)
    ensures |r| == |scores| && forall i :: 0 <= i < |r| ==> r[i] == scores[i].0
  {
    seq(|scores|, i requires 0 <= i < |scores| => scores[i].0)
  }

  /** `len(set(skills) & set(domain_skills))`: the given skills are compared
      as given, the domain's skills lower-cased. */
  function Overlap(d: DomainEntry, skills: seq<string>): (k: nat)
    ensures k == 0 <==> forall s, e :: s in skills && e in DomainSkills(d) ==> s != Lower(e)
    ensures k <= |DomainSkills(d)|
  {
    CommonSkills(skills, DomainSkills(d));
    |(set s | s in skills) * LowerSet(DomainSkills(d))|
  }

  lemma CommonSkills(skills: seq<string>, entries: seq<string>)
    ensures var common := (set s | s in skills) * LowerSet(entries);
            (|common| == 0 <==> forall s, e :: s in skills && e in entries ==> s != Lower(e))
            && |common| <= |entries|
  {
    var common := (set s | s in skills) * LowerSet(entries);
    if exists s, e :: s in skills && e in entries && s == Lower(e) {
      var s, e :| s in skills && e in entries && s == Lower(e);
      assert s in common;
    }
    LowerSetSize(entries);
    assert common <= LowerSet(entries);
    SubsetSize(common, LowerSet(entries));
  }

  lemma SubsetSize(a: set<string>, b: set<string>)
    requires a <= b
    ensures |a| <= |b|
  {
    assert b == a + (b - a);
  }

  lemma {:induction false} LowerSetSize(ss: seq<string>)
    ensures |LowerSet(ss)| <= |ss|
  {
    if ss != [] {
      LowerSetSize(ss[1..]);
      assert LowerSet(ss) == LowerSet(ss[1..]) + {Lower(ss[0])} by {
        assert forall s :: s in ss ==> s == ss[0] || s in ss[1..];
      }
    }
  }

  /** The `domain_scores` dictionary of `identify_domains`, in insertion
      order: one (name, overlap) pair per domain with a positive overlap. */
  function DomainScores(data: seq<DomainEntry>, skills: seq<string>): (r: seq<(string, nat)>)
    ensures forall p :: p in r ==> p.1 >= 1 && exists d :: d in data && d.name == p.0 && Overlap(d, skills) == p.1
  {
    if data == [] then []
    else
      var d := data[|data| - 1];
      var k := Overlap(d, skills);
      var init := DomainScores(data[..|data| - 1], skills);
      assert forall e :: e in data[..|data| - 1] ==> e in data;
      init + (if k > 0 then [(d.name, k)] else [])
  }

  /** Every domain sharing a skill is scored, with its overlap. */
  lemma {:induction false} DomainScoresComplete(data: seq<DomainEntry>, skills: seq<string>)
    ensures forall d :: d in data && Overlap(d, skills) >= 1 ==> (d.name, Overlap(d, skills)) in DomainScores(data, skills)
  {
    if data != [] {
      var init := data[..|data| - 1];
      DomainScoresComplete(init, skills);
      assert forall e :: e in data ==> e == data[|data| - 1] || e in init;
    }
  }

  // ---- `sorted(..., key=lambda x: x[1], reverse=True)`: a stable sort by
  // ---- decreasing overlap

  predicate SortedByOverlap(s: seq<(string, nat)>)
  {
    forall i, j :: 0 <= i < j < |s| ==> s[i].1 >= s[j].1
  }

  /** The pairs of `s` whose overlap is `k`, in their order in `s`. */
  function WithOverlap(s: seq<(string, nat)>, k: nat): seq<(string, nat)>
  {
    if s == [] then []
    else (if s[0].1 == k then [s[0]] else []) + WithOverlap(s[1..], k)
  }

  /** Places `x`, which came before every element of `s`, ahead of the
      first element whose overlap does not exceed its own. */
  function InsertByOverlap(x: (string, nat), s: seq<(string, nat)>): seq<(string, nat)>
  {
    if s == [] || s[0].1 <= x.1 then [x] + s
    else [s[0]] + InsertByOverlap(x, s[1..])
  }

  function SortByOverlap(xs: seq<(string, nat)>): seq<(string, nat)>
  {
    if xs == [] then [] else InsertByOverlap(xs[0], SortByOverlap(xs[1..]))
  }

  lemma {:induction false} InsertByOverlapPermutes(x: (string, nat), s: seq<(string, nat)>)
    ensures multiset(InsertByOverlap(x, s)) == multiset(s) + multiset{x}
  {
    if s != [] && s[0].1 > x.1 {
      InsertByOverlapPermutes(x, s[1..]);
      assert s == [s[0]] + s[1..];
    }
  }

  lemma {:induction false} InsertByOverlapBounded(x: (string, nat), s: seq<(string, nat)>, b: nat)
    requires x.1 <= b && forall y :: y in s ==> y.1 <= b
    ensures forall y :: y in InsertByOverlap(x, s) ==> y.1 <= b
  {
    if s != [] && s[0].1 > x.1 {
      InsertByOverlapBounded(x, s[1..], b);
    }
  }

  lemma {:induction false} InsertByOverlapSorted(x: (string, nat), s: seq<(string, nat)>)
    requires SortedByOverlap(s)
    ensures SortedByOverlap(InsertByOverlap(x, s))
  {
    if s != [] && s[0].1 > x.1 {
      InsertByOverlapSorted(x, s[1..]);
      var rest := InsertByOverlap(x, s[1..]);
      assert forall y :: y in s[1..] ==> y.1 <= s[0].1 by {
        forall y | y in s[1..] ensures y.1 <= s[0].1 {
          var m :| 0 <= m < |s[1..]| && s[1..][m] == y;
          assert s[m + 1] == y;
        }
      }
      InsertByOverlapBounded(x, s[1..], s[0].1);
      assert forall j :: 0 <= j < |rest| ==> rest[j] in rest;
    }
  }

  lemma {:induction false} InsertByOverlapKeepsTies(x: (string, nat), s: seq<(string, nat)>, k: nat)
    ensures WithOverlap(InsertByOverlap(x, s), k)
            == (if x.1 == k then [x] else []) + WithOverlap(s, k)
  {
    var hx := if x.1 == k then [x] else [];
    if s == [] || s[0].1 <= x.1 {
      calc {
        WithOverlap(InsertByOverlap(x, s), k);
        WithOverlap([x] + s, k);
        { assert ([x] + s)[0] == x && ([x] + s)[1..] == s; }
        hx + WithOverlap(s, k);
      }
    } else {
      var h := if s[0].1 == k then [s[0]] else [];
      var rest := InsertByOverlap(x, s[1..]);
      calc {
        WithOverlap(InsertByOverlap(x, s), k);
        WithOverlap([s[0]] + rest, k);
        { assert ([s[0]] + rest)[0] == s[0] && ([s[0]] + rest)[1..] == rest; }
        h + WithOverlap(rest, k);
        { InsertByOverlapKeepsTies(x, s[1..], k); }
        h + (hx + WithOverlap(s[1..], k));
        // x and s[0] cannot both have overlap k, since s[0].1 > x.1.
        { assert h == [] || hx == []; }
        hx + (h + WithOverlap(s[1..], k));
        hx + WithOverlap(s, k);
      }
    }
  }

  /** The ranking is in non-increasing overlap order and is a permutation
      of the scored domains. */
  lemma {:induction false} SortByOverlapSortsAndPermutes(xs: seq<(string, nat)>)
    ensures SortedByOverlap(SortByOverlap(xs))
    ensures multiset(SortByOverlap(xs)) == multiset(xs)
    ensures |SortByOverlap(xs)| == |xs|
  {
    if xs != [] {
      SortByOverlapSortsAndPermutes(xs[1..]);
      InsertByOverlapPermutes(xs[0], SortByOverlap(xs[1..]));
      InsertByOverlapSorted(xs[0], SortByOverlap(xs[1..]));
      assert xs == [xs[0]] + xs[1..];
    }
  }

  /** Stability: the domains that share an overlap keep their relative
      order from the database. */
  lemma {:induction false} SortByOverlapIsStable(xs: seq<(string, nat)>, k: nat)
    ensures WithOverlap(SortByOverlap(xs), k) == WithOverlap(xs, k)
  {
    if xs != [] {
      SortByOverlapIsStable(xs[1..], k);
      InsertByOverlapKeepsTies(xs[0], SortByOverlap(xs[1..]), k);
    }
  }

  /** `[domain for domain, _ in sorted_domains[:3]]`, before the names are
      taken. */
  function TopDomainScores(data: seq<DomainEntry>, skills: seq<string>): seq<(string, nat)>
  {
    var sorted := SortByOverlap(DomainScores(data, skills));
    sorted[..Min(3, |sorted|)]
  }

  /** At most three domains, each with at least one shared skill, each the
      overlap of a database domain, in non-increasing overlap order. */
  lemma TopDomainsShape(data: seq<DomainEntry>, skills: seq<string>)
    ensures var top := TopDomainScores(data, skills);
            |top| <= 3 && SortedByOverlap(top)
            && forall p :: p in top ==>
                 p.1 >= 1 && exists d :: d in data && d.name == p.0 && Overlap(d, skills) == p.1
  {
    var xs := DomainScores(data, skills);
    SortByOverlapSortsAndPermutes(xs);
    var top := TopDomainScores(data, skills);
    forall p | p in top ensures p in xs {
      assert p in multiset(SortByOverlap(xs));
    }
  }

  /** Top-k over the database: nothing is returned exactly when no domain
      shares a skill, and no domain left out has a strictly larger overlap
      than the last one returned. */
  lemma TopDomainsAreTopK(data: seq<DomainEntry>, skills: seq<string>)
    ensures var top := TopDomainScores(data, skills);
            (top == [] <==> forall d :: d in data ==> Overlap(d, skills) == 0)
            && forall d :: d in data && (d.name, Overlap(d, skills)) !in top
                 ==> top == [] || Overlap(d, skills) <= top[|top| - 1].1
  {
    TopEmptyIffNoOverlap(data, skills);
    OmittedDomainsAreNotLarger(data, skills);
  }

  lemma TopEmptyIffNoOverlap(data: seq<DomainEntry>, skills: seq<string>)
    ensures TopDomainScores(data, skills) == [] <==> forall d :: d in data ==> Overlap(d, skills) == 0
  {
    var xs := DomainScores(data, skills);
    SortByOverlapSortsAndPermutes(xs);
    assert |SortByOverlap(xs)| == |xs| by {
      assert |multiset(SortByOverlap(xs))| == |multiset(xs)|;
    }
    if xs != [] {
      var p := xs[0];
      assert p.1 >= 1 && exists d :: d in data && d.name == p.0 && Overlap(d, skills) == p.1;
    }
    DomainScoresComplete(data, skills);
  }

  lemma OmittedDomainsAreNotLarger(data: seq<DomainEntry>, skills: seq<string>)
    ensures var top := TopDomainScores(data, skills);
            forall d :: d in data && (d.name, Overlap(d, skills)) !in top
              ==> top == [] || Overlap(d, skills) <= top[|top| - 1].1
  {
    var xs := DomainScores(data, skills);
    var sorted := SortByOverlap(xs);
    SortByOverlapSortsAndPermutes(xs);
    DomainScoresComplete(data, skills);
    var top := TopDomainScores(data, skills);
    assert top == sorted[..Min(3, |sorted|)];
    forall d | d in data && (d.name, Overlap(d, skills)) !in top && top != []
      ensures Overlap(d, skills) <= top[|top| - 1].1
    {
      var p := (d.name, Overlap(d, skills));
      if Overlap(d, skills) >= 1 {
        assert p in xs;
        assert p in multiset(sorted);
        OmittedIsNotLarger(sorted, Min(3, |sorted|), p);
      }
    }
  }

  /** In a sorted ranking cut after `n` places, an element left out has an
      overlap no larger than the last one kept. */
  lemma OmittedIsNotLarger(sorted: seq<(string, nat)>, n: nat, p: (string, nat))
    requires SortedByOverlap(sorted) && 0 < n <= |sorted|
    requires p in sorted && p !in sorted[..n]
    ensures p.1 <= sorted[n - 1].1
  {
    var i :| 0 <= i < |sorted| && sorted[i] == p;
    assert forall j :: 0 <= j < n ==> sorted[..n][j] == sorted[j];
    assert n <= i;
  }

  /** Overlap is counted on sets: duplicates in the given skills, and their
      order, do not change the ranking. */
  lemma {:induction false} TopDomainsDependOnSkillSet(data: seq<DomainEntry>, a: seq<string>, b: seq<string>)
    requires (set s | s in a) == (set s | s in b)
    ensures DomainScores(data, a) == DomainScores(data, b)
    ensures TopDomainScores(data, a) == TopDomainScores(data, b)
  {
    if data != [] {
      TopDomainsDependOnSkillSet(data[..|data| - 1], a, b);
    }
  }

  /** Given skills are not lower-cased: "Python" does not meet a domain that
      lists "Python", whose entry is compared as "python". */
  lemma GivenSkillsAreNotLowered()
    ensures Overlap(DomainEntry("Data Science", Some(["Python"])), ["Python"]) == 0
    ensures Overlap(DomainEntry("Data Science", Some(["Python"])), ["python"]) == 1
  {
    var d := DomainEntry("Data Science", Some(["Python"]));
    assert DomainSkills(d) == ["Python"];
    LowerPython();
    assert (set s | s in ["Python"]) == {"Python"};
    assert (set s | s in ["python"]) == {"python"};
    assert {"Python"} * {"python"} == {};
  }

  lemma LowerPython()
    ensures LowerSet(["Python"]) == {"python"}
  {
    assert Lower("Python") == "python";
  }

  /** `SkillExtractor`: the database and its vocabulary, both fixed at
      construction. */
  class SkillExtractor {
    const skillsData: seq<DomainEntry>
    const allSkills: set<string>

    predicate Valid()
    {
      DistinctNames(skillsData) && allSkills == Vocabulary(skillsData)
    }

    /** `__init__` with the database already loaded, and `_flatten_skills`. */
    constructor (data: seq<DomainEntry>)
      requires DistinctNames(data)
      ensures Valid() && skillsData == data
    {
      var skills: set<string> := {};
      for i := 0 to |data|
        invariant skills == Vocabulary(data[..i])
      {
        assert data[..i + 1][..i] == data[..i];
        skills := skills + LowerSet(DomainSkills(data[i]));
      }
      assert data[..|data|] == data;
      skillsData := data;
      allSkills := skills;
    }

    /** `extract_skills`: every vocabulary entry that occurs as a whole word
        in the lower-cased text, each once. */
    method ExtractSkills(text: string) returns (found: seq<string>)
      requires Valid()
      ensures forall i, j :: 0 <= i < j < |found| ==> found[i] != found[j]
      ensures (set w | w in found) == FoundSkills(allSkills, text)
      ensures forall w :: w in found ==> w in allSkills && IsLower(w)
    {
      var textLower := Lower(text);
      found := [];
      var remaining := allSkills;
      while remaining != {}
        invariant remaining <= allSkills
        invariant forall w :: w in found ==> w in allSkills && w !in remaining
        invariant forall i, j :: 0 <= i < j < |found| ==> found[i] != found[j]
        invariant forall w :: w in found <==> w in allSkills && w !in remaining && OccursAsWord(textLower, w)
        decreases remaining
      {
        var skill :| skill in remaining;
        if OccursAsWord(textLower, skill) {
          found := found + [skill];
        }
        remaining := remaining - {skill};
      }
      assert (set w | w in found) == FoundSkills(allSkills, text);
    }

    /** `identify_domains`: the names of the three domains sharing most
        skills with `skills`, ties in database order. */
    method IdentifyDomains(skills: seq<string>) returns (domains: seq<string>)
      requires Valid()
      ensures domains == Names(TopDomainScores(skillsData, skills))
      ensures |domains| <= 3
    {
      var domainScores: seq<(string, nat)> := [];
      for i := 0 to |skillsData|
        invariant domainScores == DomainScores(skillsData[..i], skills)
      {
        assert skillsData[..i + 1][..i] == skillsData[..i];
        var overlap := Overlap(skillsData[i], skills);
        if overlap > 0 {
          domainScores := domainScores + [(skillsData[i].name, overlap)];
        }
      }
      assert skillsData[..|skillsData|] == skillsData;
      var sortedDomains := SortByOverlap(domainScores);
      domains := Names(sortedDomains[..Min(3, |sortedDomains|)]);
    }
  }
}

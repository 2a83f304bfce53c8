/** Text clean-up and e-mail extraction of the resume parser
    (app/services/resume_parser.py). Both are pure string functions. */
module ResumeParser {
  import opened Wrappers
  import opened Text

  // ---- `_clean_text`: `re.sub(r'\s+', ' ', text).strip()`

  /** The non-whitespace characters of `s`, in order. */
  function RemoveSpaces(s: string): string
  {
    if s == [] then [] else (if IsSpace(s[0]) then [] else [s[0]]) + RemoveSpaces(s[1..])
  }

  /** Every whitespace character is a plain space and is not followed by
      another whitespace character. */
  predicate SingleSpaced(s: string)
  {
    forall i: nat :: i < |s| ==> SingleSpaceAt(s, i)
  }

  /** The character at `i` is not whitespace, or a space with no whitespace
      after it. */
  predicate SingleSpaceAt(s: string, i: nat)
    requires i < |s|
  {
    IsSpace(s[i]) ==> s[i] == ' ' && (i + 1 == |s| || !IsSpace(s[i + 1]))
  }

  lemma RemoveSpacesCons(c: char, s: string)
    ensures RemoveSpaces([c] + s) == (if IsSpace(c) then [] else [c]) + RemoveSpaces(s)
  {
    assert ([c] + s)[1..] == s;
  }

  lemma {:induction false} RemoveSpacesAppend(a: string, b: string)
    ensures RemoveSpaces(a + b) == RemoveSpaces(a) + RemoveSpaces(b)
  {
    if a == [] {
      assert a + b == b;
    } else {
      var h := if IsSpace(a[0]) then [] else [a[0]];
      calc {
        RemoveSpaces(a + b);
        { assert (a + b)[0] == a[0] && (a + b)[1..] == a[1..] + b; }
        h + RemoveSpaces(a[1..] + b);
        { RemoveSpacesAppend(a[1..], b); }
        h + (RemoveSpaces(a[1..]) + RemoveSpaces(b));
        (h + RemoveSpaces(a[1..])) + RemoveSpaces(b);
        RemoveSpaces(a) + RemoveSpaces(b);
      }
    }
  }

  lemma SingleSpacedCons(c: char, s: string)
    requires SingleSpaced(s)
    requires IsSpace(c) ==> c == ' ' && (s == [] || !IsSpace(s[0]))
    ensures SingleSpaced([c] + s)
  {
    var r := [c] + s;
    forall i: nat | i < |r| ensures SingleSpaceAt(r, i) {
      if i > 0 {
        assert SingleSpaceAt(s, i - 1);
        assert r[i] == s[i - 1];
        assert i + 1 < |r| ==> r[i + 1] == s[i];
      } else if s != [] {
        assert r[1] == s[0];
      }
    }
  }

  lemma {:induction false} RemoveSpacesOfBlank(s: string)
    ensures RemoveSpaces(s) == [] <==> forall i :: 0 <= i < |s| ==> IsSpace(s[i])
  {
    if s != [] {
      RemoveSpacesOfBlank(s[1..]);
      assert forall i :: 1 <= i < |s| ==> s[i] == s[1..][i - 1];
    }
  }

  lemma RemoveSpacesTrimLeft(s: string)
    ensures RemoveSpaces(TrimLeft(s, IsSpace)) == RemoveSpaces(s)
  {
    var r := TrimLeft(s, IsSpace);
    var k := |s| - |r|;
    assert s == s[..k] + r;
    RemoveSpacesAppend(s[..k], r);
    RemoveSpacesOfBlank(s[..k]);
  }

  /** Removing whitespace from a string with blank ends gives what removing
      it from the middle part gives. */
  lemma RemoveSpacesBetweenBlanks(s: string, a: nat, b: nat)
    requires a <= b <= |s|
    requires forall i :: 0 <= i < a ==> IsSpace(s[i])
    requires forall i :: b <= i < |s| ==> IsSpace(s[i])
    ensures RemoveSpaces(s[a..b]) == RemoveSpaces(s)
  {
    var head, mid, tail := s[..a], s[a..b], s[b..];
    SplitThree(s, a, b);
    calc {
      RemoveSpaces(s);
      { RemoveSpacesAppend(head, mid + tail); }
      RemoveSpaces(head) + RemoveSpaces(mid + tail);
      { RemoveSpacesAppend(mid, tail); }
      RemoveSpaces(head) + (RemoveSpaces(mid) + RemoveSpaces(tail));
      { RemoveSpacesOfBlank(head); }
      [] + (RemoveSpaces(mid) + RemoveSpaces(tail));
      { assert forall i :: 0 <= i < |tail| ==> IsSpace(tail[i]) by {
          forall i | 0 <= i < |tail| ensures IsSpace(tail[i]) {
            assert tail[i] == s[b + i];
          }
        }
        RemoveSpacesOfBlank(tail); }
      [] + (RemoveSpaces(mid) + []);
      { assert RemoveSpaces(mid) + [] == RemoveSpaces(mid); }
      RemoveSpaces(mid);
    }
  }

  lemma RemoveSpacesStrip(s: string)
    ensures RemoveSpaces(Strip(s)) == RemoveSpaces(s)
  {
    var r, a := Strip(s), |s| - |TrimLeft(s, IsSpace)|;
    assert s[a..a + |r|] == r;
    RemoveSpacesBetweenBlanks(s, a, a + |r|);
  }

  /** `re.sub(r'\s+', ' ', s)`: each maximal run of whitespace becomes one
      space. */
  function CollapseWhitespace(s: string): (r: string)
    ensures SingleSpaced(r)
    ensures (r != [] && IsSpace(r[0])) <==> (s != [] && IsSpace(s[0]))
    decreases |s|
  {
    if s == [] then []
    else if IsSpace(s[0]) then
      var c := CollapseWhitespace(TrimLeft(s, IsSpace));
      SingleSpacedCons(' ', c);
      [' '] + c
    else
      var c := CollapseWhitespace(s[1..]);
      SingleSpacedCons(s[0], c);
      [s[0]] + c
  }

  /** Collapsing keeps every non-whitespace character, in order. */
  lemma {:induction false} CollapseKeepsContent(s: string)
    ensures RemoveSpaces(CollapseWhitespace(s)) == RemoveSpaces(s)
    decreases |s|
  {
    if s != [] {
      if IsSpace(s[0]) {
        var rest := TrimLeft(s, IsSpace);
        CollapseKeepsContent(rest);
        RemoveSpacesTrimLeft(s);
        RemoveSpacesCons(' ', CollapseWhitespace(rest));
      } else {
        CollapseKeepsContent(s[1..]);
        RemoveSpacesCons(s[0], CollapseWhitespace(s[1..]));
        RemoveSpacesCons(s[0], s[1..]);
        assert s == [s[0]] + s[1..];
      }
    }
  }

  /** `s` holds no whitespace. */
  predicate NoSpace(s: string)
  {
    forall i :: 0 <= i < |s| ==> !IsSpace(s[i])
  }

  /** `s` is a non-empty run of whitespace. */
  predicate SpaceRun(s: string)
  {
    s != [] && forall i :: 0 <= i < |s| ==> IsSpace(s[i])
  }

  /** Text without whitespace is copied as it is. */
  lemma {:induction false} CollapseWordPrefix(a: string, b: string)
    requires NoSpace(a)
    ensures CollapseWhitespace(a + b) == a + CollapseWhitespace(b)
    decreases |a|
  {
    if a == [] {
      assert a + b == b;
    } else {
      assert (a + b)[0] == a[0] && (a + b)[1..] == a[1..] + b;
      assert !IsSpace(a[0]);
      CollapseWordPrefix(a[1..], b);
      assert a == [a[0]] + a[1..];
    }
  }

  /** A maximal run of whitespace, of any length and kind, becomes exactly
      one space. */
  lemma CollapseRun(w: string, b: string)
    requires SpaceRun(w)
    requires b == [] || !IsSpace(b[0])
    ensures CollapseWhitespace(w + b) == [' '] + CollapseWhitespace(b)
  {
    var s := w + b;
    assert s[0] == w[0];
    var r := TrimLeft(s, IsSpace);
    assert forall i :: 0 <= i < |w| ==> s[i] == w[i];
    assert b != [] ==> s[|w|] == b[0];
    assert r != [] ==> r[0] == s[|s| - |r|];
    assert r == s[|w|..] == b;
  }

  /** Text with no whitespace at either end is not changed by stripping. */
  lemma StripUnchanged(c: string)
    requires c != [] && !IsSpace(c[0]) && !IsSpace(c[|c| - 1])
    ensures Strip(c) == c
  {
    assert SkipForward(c, IsSpace, 0) == 0;
    assert SkipBackward(c, IsSpace, 0, |c|) == |c|;
  }

  /** Two words separated by any whitespace clean to the two words joined
      by one space. */
  lemma CleanTextJoinsWords(a: string, w: string, b: string)
    requires a != [] && NoSpace(a) && SpaceRun(w) && b != [] && NoSpace(b)
    ensures CleanText(a + w + b) == a + [' '] + b
  {
    var c := a + [' '] + b;
    assert CollapseWhitespace(a + w + b) == c by {
      assert a + w + b == a + (w + b);
      CollapseWordPrefix(a, w + b);
      assert !IsSpace(b[0]);
      CollapseRun(w, b);
      CollapseWordPrefix(b, []);
      assert b + [] == b;
    }
    assert c[0] == a[0] && c[|c| - 1] == b[|b| - 1];
    StripUnchanged(c);
  }

  lemma SingleSpacedSlice(s: string, a: nat, r: string)
    requires SingleSpaced(s) && StartsWithAt(s, a, r)
    ensures SingleSpaced(r)
  {
    forall i: nat | i < |r| ensures SingleSpaceAt(r, i) {
      assert SingleSpaceAt(s, a + i);
      assert r[i] == s[a + i];
      assert i + 1 < |r| ==> r[i + 1] == s[a + i + 1];
    }
  }

  /** `_clean_text` */
  function CleanText(s: string): (r: string)
    ensures r == [] || (!IsSpace(r[0]) && !IsSpace(r[|r| - 1]))
    ensures SingleSpaced(r)
  {
    var c := CollapseWhitespace(s);
    var r := Strip(c);
    SingleSpacedSlice(c, |c| - |TrimLeft(c, IsSpace)|, r);
    r
  }

  /** No non-whitespace character is lost, added or reordered. */
  lemma CleanTextKeepsContent(s: string)
    ensures RemoveSpaces(CleanText(s)) == RemoveSpaces(s)
  {
    CollapseKeepsContent(s);
    RemoveSpacesStrip(CollapseWhitespace(s));
  }

  /** Empty or all-whitespace input, and only such input, cleans to "". */
  lemma CleanTextEmptyIffBlank(s: string)
    ensures CleanText(s) == [] <==> forall i :: 0 <= i < |s| ==> IsSpace(s[i])
  {
    var r := CleanText(s);
    CleanTextKeepsContent(s);
    RemoveSpacesOfBlank(s);
    RemoveSpacesOfBlank(r);
    if r != [] {
      assert !IsSpace(r[0]);
    }
  }

  lemma {:induction false} CollapseKeepsSingleSpaced(s: string)
    requires SingleSpaced(s)
    ensures CollapseWhitespace(s) == s
  {
    if s != [] {
      var tail := s[1..];
      SingleSpacedSlice(s, 1, tail);
      CollapseKeepsSingleSpaced(tail);
      assert s == [s[0]] + tail;
      if IsSpace(s[0]) {
        assert SingleSpaceAt(s, 0);
        assert tail == [] || !IsSpace(tail[0]);
        assert TrimLeft(tail, IsSpace) == tail;
        assert TrimLeft(s, IsSpace) == tail;
        assert CollapseWhitespace(s) == [' '] + CollapseWhitespace(tail);
      } else {
        assert CollapseWhitespace(s) == [s[0]] + CollapseWhitespace(tail);
      }
    }
  }

  /** Cleaning cleaned text changes nothing. */
  lemma CleanTextIdempotent(s: string)
    ensures CleanText(CleanText(s)) == CleanText(s)
  {
    var r := CleanText(s);
    CollapseKeepsSingleSpaced(r);
    assert SkipForward(r, IsSpace, 0) == 0;
    assert SkipBackward(r, IsSpace, 0, |r|) == |r|;
  }

  // ---- the e-mail half of `extract_contact_info`:
  // ---- `re.search(r'[\w\.-]+@[\w\.-]+', text)`

  predicate IsEmailChar(c: char)
  {
    IsWordChar(c) || c == '.' || c == '-'
  }

  /** `t[a..b]` is made of e-mail characters. */
  predicate EmailRun(t: string, a: nat, b: nat)
    requires a <= b <= |t|
  {
    forall p :: a <= p < b ==> IsEmailChar(t[p])
  }

  /** The pattern matches `t[i..k]` with its '@' at `j`. */
  predicate PatternMatch(t: string, i: nat, j: nat, k: nat)
  {
    i < j && j + 1 < k <= |t| && t[j] == '@' && EmailRun(t, i, j) && EmailRun(t, j + 1, k)
  }

  /** An '@' with an e-mail character on both sides. */
  predicate QualifyingAt(t: string, j: nat)
  {
    0 < j < |t| - 1 && t[j] == '@' && IsEmailChar(t[j - 1]) && IsEmailChar(t[j + 1])
  }

  function FirstQualifying(t: string, from: nat): (r: Option<nat>)
    ensures r.Some? ==> from <= r.value && QualifyingAt(t, r.value)
                        && forall j :: from <= j < r.value ==> !QualifyingAt(t, j)
    ensures r.None? ==> forall j :: from <= j ==> !QualifyingAt(t, j)
    decreases |t| - from
  {
    if from >= |t| then None
    else if QualifyingAt(t, from) then Some(from)
    else FirstQualifying(t, from + 1)
  }

  /** Start of the maximal run of e-mail characters that ends at `i`. */
  function RunStart(t: string, i: nat): (a: nat)
    requires i < |t| && IsEmailChar(t[i])
    ensures a <= i && EmailRun(t, a, i + 1) && (a == 0 || !IsEmailChar(t[a - 1]))
  {
    if i > 0 && IsEmailChar(t[i - 1]) then RunStart(t, i - 1) else i
  }

  /** End (exclusive) of the maximal run of e-mail characters from `k`. */
  function RunEnd(t: string, k: nat): (e: nat)
    requires k <= |t|
    ensures k <= e <= |t| && EmailRun(t, k, e) && (e == |t| || !IsEmailChar(t[e]))
    decreases |t| - k
  {
    if k < |t| && IsEmailChar(t[k]) then RunEnd(t, k + 1) else k
  }

  /** Start, '@' position and end of the e-mail found in `t`. */
  function EmailSpan(t: string): Option<(nat, nat, nat)>
  {
    match FirstQualifying(t, 0)
    case None => None
    case Some(j) => Some((RunStart(t, j - 1), j, RunEnd(t, j + 1)))
  }

  /** `email.group(0) if email else None` */
  function ExtractEmail(t: string): (r: Option<string>)
    ensures r.Some? ==> EmailSpan(t).Some? && r.value == t[EmailSpan(t).value.0..EmailSpan(t).value.2]
  {
    match EmailSpan(t)
    case None => None
    case Some((i, j, k)) => Some(t[i..k])
  }

  /** No e-mail is reported exactly when no '@' has an e-mail character on
      both sides, which is exactly when the pattern matches nowhere. */
  lemma EmailAbsentIff(t: string)
    ensures ExtractEmail(t).None? <==> forall j :: 0 <= j < |t| ==> !QualifyingAt(t, j)
    ensures ExtractEmail(t).None? <==> forall i: nat, j: nat, k: nat :: !PatternMatch(t, i, j, k)
  {
    forall i: nat, j: nat, k: nat | PatternMatch(t, i, j, k) ensures QualifyingAt(t, j) {
    }
    if EmailSpan(t).Some? {
      var (i, j, k) := EmailSpan(t).value;
      assert PatternMatch(t, i, j, k);
    }
  }

  lemma MatchStartsAtOrAfterEmail(t: string, i': nat, j': nat, k': nat)
    requires PatternMatch(t, i', j', k') && EmailSpan(t).Some?
    ensures i' >= EmailSpan(t).value.0
  {
    var (i, j, k) := EmailSpan(t).value;
    assert QualifyingAt(t, j');
    assert j <= j';
    assert !IsEmailChar(t[j]);
    assert j < i' || j == j';
    if j == j' {
      assert i == 0 || !IsEmailChar(t[i - 1]);
    }
  }

  /** The reported e-mail is the match `re.search` returns: the pattern
      matches there, around the first qualifying '@'; no match starts further
      left; the second run cannot be extended; and it holds one '@'. */
  lemma EmailIsLeftmostGreedyMatch(t: string)
    requires EmailSpan(t).Some?
    ensures var (i, j, k) := EmailSpan(t).value;
            && PatternMatch(t, i, j, k)
            && (forall j': nat :: j' < j ==> !QualifyingAt(t, j'))
            && (forall i': nat, j': nat, k': nat :: i' < i ==> !PatternMatch(t, i', j', k'))
            && (forall k': nat :: k < k' ==> !PatternMatch(t, i, j, k'))
            && ExtractEmail(t) == Some(t[i..k])
            && t[i..k][j - i] == '@'
            && forall p :: 0 <= p < k - i && p != j - i ==> t[i..k][p] != '@'
  {
    var (i, j, k) := EmailSpan(t).value;
    assert PatternMatch(t, i, j, k);
    forall i': nat, j': nat, k': nat | PatternMatch(t, i', j', k') ensures i' >= i {
      MatchStartsAtOrAfterEmail(t, i', j', k');
    }
    forall k': nat | k < k' && PatternMatch(t, i, j, k') ensures false {
    }
    forall p | 0 <= p < k - i && p != j - i ensures t[i..k][p] != '@' {
      assert t[i..k][p] == t[i + p];
      assert IsEmailChar(t[i + p]);
    }
  }
}

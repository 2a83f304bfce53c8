/** Parsing of the language model's job-match reply
    (`RAGService._parse_job_match_response`, app/services/rag_service.py).

    Four extraction stages are tried in order, each inside its own
    try/except, before a regular-expression fallback builds a reply with
    defaults. `json.loads` and the two regular expressions that locate JSON
    objects in free text are not modelled: they are passed in as functions
    (`loads` returns `None` where `json.loads` raises). The fallback's own
    regular expressions are modelled exactly. */
module JobMatchReply {
  import opened Wrappers
  import opened Text

  /** A value `json.loads` can produce. */
  datatype Json =
    | JObject(fields: map<string, Json>)
    | JArray(items: seq<Json>)
    | JString(str: string)
    | JNumber(num: real)
    | JBool(b: bool)
    | JNull

  /** Python's `key in v`: key membership for a dict, element membership for
      a list, substring for a str; `None` where Python raises TypeError. */
  function ContainsKey(v: Json, key: string): (r: Option<bool>)
    ensures r.None? <==> !(v.JObject? || v.JArray? || v.JString?)
    ensures v.JObject? ==> (r == Some(true) <==> key in v.fields)
    ensures v.JArray? ==> (r == Some(true) <==> exists i :: 0 <= i < |v.items| && v.items[i] == JString(key))
  {
    match v
    case JObject(fields) => Some(key in fields)
    case JArray(items) => Some(JString(key) in items)
    case JString(s) => Some(IsSubstring(key, s))
    case _ => None
  }

  /** What one try-block of the cascade does. */
  datatype StageOutcome = Returned(value: Json) | Raised | NoMatch

  /** Stage 2: `re.search(r'``````', ...)` followed by `group(1)`. The
      pattern has no capture group, so a match raises IndexError, which the
      block swallows; no match falls through. */
  function MarkdownStage(text: string): (o: StageOutcome)
    ensures o.Raised? <==> IsSubstring("``````", text)
  {
    if IsSubstring("``````", text) then Raised else NoMatch
  }

  /** The markdown stage can never return a value. */
  lemma MarkdownStageNeverReturns(text: string)
    ensures !MarkdownStage(text).Returned?
  {
  }

  /** Stage 3: the object found by the `"match_score"` search, parsed. */
  function ObjectStage(text: string, loads: string -> Option<Json>,
                       searchObject: string -> Option<string>): (o: StageOutcome)
    ensures o.Returned? <==> searchObject(text).Some? && loads(searchObject(text).value).Some?
  {
    match searchObject(text)
    case None => NoMatch
    case Some(s) =>
      match loads(s)
      case None => Raised
      case Some(v) => Returned(v)
  }

  /** What stage 4 accepts: a found object that parses and has
      `match_score`. */
  predicate Scored(v: Option<Json>)
  {
    v.Some? && ContainsKey(v.value, "match_score") == Some(true)
  }

  /** Index of the first accepted object at or after `from`. */
  function FirstScoredFrom(objs: seq<string>, loads: string -> Option<Json>, from: nat): (r: Option<nat>)
    ensures r.Some? ==> from <= r.value < |objs| && Scored(loads(objs[r.value]))
                        && forall i :: from <= i < r.value ==> !Scored(loads(objs[i]))
    ensures r.None? ==> forall i :: from <= i < |objs| ==> !Scored(loads(objs[i]))
    decreases |objs| - from
  {
    if from >= |objs| then None
    else if Scored(loads(objs[from])) then Some(from)
    else FirstScoredFrom(objs, loads, from + 1)
  }

  /** Stage 4: the first found object that parses and has `match_score`. */
  function FirstScoredObject(objs: seq<string>, loads: string -> Option<Json>): (r: Option<Json>)
    ensures r.Some? ==> ContainsKey(r.value, "match_score") == Some(true)
                        && exists i :: 0 <= i < |objs| && loads(objs[i]) == Some(r.value)
                                       && forall j :: 0 <= j < i ==> !Scored(loads(objs[j]))
    ensures r.None? ==> forall i :: 0 <= i < |objs| ==> !Scored(loads(objs[i]))
  {
    match FirstScoredFrom(objs, loads, 0)
    case None => None
    case Some(i) => loads(objs[i])
  }

  // ---- the fallback

  /** End (exclusive) of the run of digits starting at `p`. */
  function DigitsEnd(t: string, p: nat): (e: nat)
    requires p <= |t|
    ensures p <= e <= |t| && (e == |t| || !IsDigit(t[e]))
    ensures forall m :: p <= m < e ==> IsDigit(t[m])
    decreases |t| - p
  {
    if p < |t| && IsDigit(t[p]) then DigitsEnd(t, p + 1) else p
  }

  function Pow10(n: nat): (r: nat)
    ensures r >= 1
  {
    if n == 0 then 1 else 10 * Pow10(n - 1)
  }

  function DigitValue(c: char): (d: nat)
    requires IsDigit(c)
    ensures d <= 9
  {
    c as int - '0' as int
  }

  /** The value of a string of decimal digits. */
  function DigitsValue(s: string): (v: nat)
    requires forall m :: 0 <= m < |s| ==> IsDigit(s[m])
    ensures v < Pow10(|s|)
  {
    if s == [] then 0
    else
      var high := DigitsValue(s[..|s| - 1]);
      var low := DigitValue(s[|s| - 1]);
      assert high * 10 + low < Pow10(|s| - 1) * 10 by {
        assert high + 1 <= Pow10(|s| - 1);
        assert (high + 1) * 10 <= Pow10(|s| - 1) * 10;
      }
      high * 10 + low
  }

  /** Digits written after others scale those by a power of ten. */
  lemma {:induction false} DigitsValueAppend(a: string, b: string)
    requires forall m :: 0 <= m < |a| ==> IsDigit(a[m])
    requires forall m :: 0 <= m < |b| ==> IsDigit(b[m])
    ensures forall m :: 0 <= m < |a + b| ==> IsDigit((a + b)[m])
    ensures DigitsValue(a + b) == DigitsValue(a) * Pow10(|b|) + DigitsValue(b)
    decreases |b|
  {
    if b == [] {
      assert a + b == a;
    } else {
      var b' := b[..|b| - 1];
      assert (a + b)[..|a + b| - 1] == a + b';
      assert (a + b)[|a + b| - 1] == b[|b| - 1];
      DigitsValueAppend(a, b');
      var low := DigitValue(b[|b| - 1]);
      var x, p, y := DigitsValue(a), Pow10(|b'|), DigitsValue(b');
      assert DigitsValue(a + b) == DigitsValue(a + b') * 10 + low;
      assert DigitsValue(b) == y * 10 + low;
      assert Pow10(|b|) == p * 10;
      ShiftDigit(x, p, y, low);
    }
  }

  lemma ShiftDigit(x: int, p: int, y: int, low: int)
    ensures (x * p + y) * 10 + low == x * (p * 10) + (y * 10 + low)
  {
  }

  lemma FractionBelowOne(f: nat, p: nat)
    requires f < p
    ensures 0.0 <= f as real / p as real < 1.0
  {
  }

  const ScoreKey: string := "\"match_score\":"

  /** `"match_score":\s*\d` starts at `i`. */
  predicate ScoreOpensAt(t: string, i: nat)
  {
    StartsWithAt(t, i, ScoreKey)
    && var q := SkipForward(t, IsSpace, i + |ScoreKey|); q < |t| && IsDigit(t[q])
  }

  /** Leftmost start of a match of `"match_score":\s*(\d+(?:\.\d+)?)`. */
  function FirstScoreAt(t: string, from: nat): (r: Option<nat>)
    ensures r.Some? ==> from <= r.value && ScoreOpensAt(t, r.value)
                        && forall i :: from <= i < r.value ==> !ScoreOpensAt(t, i)
    ensures r.None? ==> forall i :: from <= i ==> !ScoreOpensAt(t, i)
    decreases |t| - from
  {
    if from >= |t| then None
    else if ScoreOpensAt(t, from) then Some(from)
    else FirstScoreAt(t, from + 1)
  }

  /** `float` of the number `\d+(?:\.\d+)?` starting at `q`; its whole part
      is the leading digit run. */
  function NumberAt(t: string, q: nat): (x: real)
    requires q < |t| && IsDigit(t[q])
    ensures var e := DigitsEnd(t, q); DigitsValue(t[q..e]) as real <= x < (DigitsValue(t[q..e]) + 1) as real
  {
    var e := DigitsEnd(t, q);
    var whole := DigitsValue(t[q..e]);
    if HasFraction(t, e) then
      var frac := FractionDigits(t, e);
      FractionBelowOne(DigitsValue(frac), Pow10(|frac|));
      Decimal(whole, DigitsValue(frac), |frac|)
    else
      whole as real
  }

  /** The number `a.b`, where `b` is written with `n` digits. */
  function Decimal(a: nat, b: nat, n: nat): real
  {
    a as real + b as real / Pow10(n) as real
  }

  /** The digits after the dot of a number whose whole part ends at `e`. */
  function FractionDigits(t: string, e: nat): (f: string)
    requires HasFraction(t, e)
    ensures f != [] && forall m :: 0 <= m < |f| ==> IsDigit(f[m])
  {
    t[e + 1..DigitsEnd(t, e + 1)]
  }

  /** The number's exact value: without a fraction, its digits; with one,
      the value of all its digits with the dot left out, divided by ten to
      the number of fraction digits. */
  lemma NumberAtValue(t: string, q: nat)
    requires q < |t| && IsDigit(t[q])
    ensures var e := DigitsEnd(t, q);
            !HasFraction(t, e) ==> NumberAt(t, q) == DigitsValue(t[q..e]) as real
    ensures var e := DigitsEnd(t, q);
            HasFraction(t, e) ==> var f := FractionDigits(t, e);
              IsDecimal(NumberAt(t, q), DigitsValue(t[q..e] + f), |f|)
  {
    var e := DigitsEnd(t, q);
    if HasFraction(t, e) {
      var whole, frac := t[q..e], FractionDigits(t, e);
      DigitsValueAppend(whole, frac);
      ScaleFraction(DigitsValue(whole), DigitsValue(frac), |frac|, DigitsValue(whole + frac));
    }
  }

  /** `(?:\.\d+)?` takes a fraction after the digits ending at `e`. */
  predicate HasFraction(t: string, e: nat)
  {
    e + 1 < |t| && t[e] == '.' && IsDigit(t[e + 1])
  }

  /** `x` is the digits `v` with a decimal point before the last `n`. */
  predicate IsDecimal(x: real, v: nat, n: nat)
  {
    x * Pow10(n) as real == v as real
  }

  /** `a.b`, with `n` digits after the dot, scaled by ten to the `n` is
      the value `v` of the digits of `a` followed by those of `b`. */
  lemma ScaleFraction(a: nat, b: nat, n: nat, v: nat)
    requires v == a * Pow10(n) + b
    ensures IsDecimal(Decimal(a, b, n), v, n)
  {
    var x := Decimal(a, b, n);
    var p := Pow10(n);
    var pr := p as real;
    assert (b as real / pr) * pr == b as real;
    assert (a * p) as real == a as real * pr;
  }

  /** The fallback `match_score`: 70.0 unless the pattern matches, else the
      number at its first match; never negative. */
  function FallbackScore(t: string): (x: real)
    ensures x >= 0.0
  {
    match FirstScoreAt(t, 0)
    case None => 70.0
    case Some(i) => NumberAt(t, SkipForward(t, IsSpace, i + |ScoreKey|))
  }

  /** Without a `"match_score":` followed by a number the score is 70.0. */
  lemma FallbackScoreDefault(t: string)
    requires forall i :: !ScoreOpensAt(t, i)
    ensures FallbackScore(t) == 70.0
  {
    if FirstScoreAt(t, 0).Some? {
      assert false;
    }
  }

  /** Otherwise the score is at least the whole part of the first number. */
  lemma FallbackScoreReadsNumber(t: string)
    requires FirstScoreAt(t, 0).Some?
    ensures var q := SkipForward(t, IsSpace, FirstScoreAt(t, 0).value + |ScoreKey|);
            q < |t| && DigitsValue(t[q..DigitsEnd(t, q)]) as real <= FallbackScore(t)
  {
  }

  /** Index of the first `c` at or after `from`. */
  function FindChar(t: string, c: char, from: nat): (r: Option<nat>)
    ensures r.Some? ==> from <= r.value < |t| && t[r.value] == c
                        && forall m :: from <= m < r.value ==> t[m] != c
    ensures r.None? ==> forall m :: from <= m < |t| ==> t[m] != c
    decreases |t| - from
  {
    if from >= |t| then None
    else if t[from] == c then Some(from)
    else FindChar(t, c, from + 1)
  }

  /** Where the '[' must be when the key starts at `i`. */
  function ListBracketAt(t: string, key: string, i: nat): nat
  {
    if i + |key| <= |t| then SkipForward(t, IsSpace, i + |key|) else |t|
  }

  /** `"<key>":\s*\[(.*?)\]` (DOTALL) matches at `i`: after the key and any
      whitespace comes '[', and some ']' follows it. */
  predicate ListOpensAt(t: string, key: string, i: nat)
  {
    StartsWithAt(t, i, key)
    && var q := ListBracketAt(t, key, i);
       q < |t| && t[q] == '[' && FindChar(t, ']', q + 1).Some?
  }

  function FirstListAt(t: string, key: string, from: nat): (r: Option<nat>)
    ensures r.Some? ==> from <= r.value && ListOpensAt(t, key, r.value)
                        && forall i :: from <= i < r.value ==> !ListOpensAt(t, key, i)
    ensures r.None? ==> forall i :: from <= i ==> !ListOpensAt(t, key, i)
    decreases |t| - from
  {
    if from >= |t| then None
    else if ListOpensAt(t, key, from) then Some(from)
    else FirstListAt(t, key, from + 1)
  }

  /** `c` does not occur in `s`. */
  predicate Lacks(s: string, c: char)
  {
    forall m :: 0 <= m < |s| ==> s[m] != c
  }

  lemma TrimLacks(p: string, drop: char -> bool, c: char)
    requires Lacks(p, c)
    ensures Lacks(Trim(p, drop), c)
  {
    var s := Trim(p, drop);
    var a := |p| - |TrimLeft(p, drop)|;
    forall m | 0 <= m < |s| ensures s[m] != c {
      assert s[m] == p[a + m];
    }
  }

  /** `group(1)` of the list pattern matching at `i`: the text between the
      '[' and the first ']' after it. */
  function ListGroup(t: string, key: string, i: nat): (r: string)
    requires ListOpensAt(t, key, i)
    ensures var q := ListBracketAt(t, key, i);
            q + 1 + |r| < |t| && t[q] == '[' && r == t[q + 1..q + 1 + |r|]
            && t[q + 1 + |r|] == ']' && Lacks(r, ']')
  {
    var q := ListBracketAt(t, key, i);
    t[q + 1..FindChar(t, ']', q + 1).value]
  }

  /** The list text for a key: present exactly when the list pattern
      matches, and then the group at its leftmost match. */
  function ListContent(t: string, key: string): (r: Option<string>)
    ensures r.Some? <==> FirstListAt(t, key, 0).Some?
    ensures r.Some? ==> var q := ListBracketAt(t, key, FirstListAt(t, key, 0).value);
                        q + 1 + |r.value| < |t| && t[q] == '[' && r.value == t[q + 1..q + 1 + |r.value|]
                        && t[q + 1 + |r.value|] == ']' && Lacks(r.value, ']')
  {
    match FirstListAt(t, key, 0)
    case None => None
    case Some(i) => Some(ListGroup(t, key, i))
  }

  /** `','.join(pieces)` */
  function JoinComma(pieces: seq<string>): string
    requires pieces != []
  {
    if |pieces| == 1 then pieces[0] else pieces[0] + [','] + JoinComma(pieces[1..])
  }

  /** `s.split(',')`: comma-free pieces that join back into `s`, so they
      hold no character `s` lacks. */
  function SplitOnComma(s: string): (pieces: seq<string>)
    ensures |pieces| >= 1
    ensures forall p :: p in pieces ==> Lacks(p, ',')
    ensures JoinComma(pieces) == s
    ensures forall p, c :: p in pieces && Lacks(s, c) ==> Lacks(p, c)
    decreases |s|
  {
    match FindChar(s, ',', 0)
    case None => [s]
    case Some(i) =>
      var rest := SplitOnComma(s[i + 1..]);
      assert forall c :: Lacks(s, c) ==> Lacks(s[i + 1..], c) && Lacks(s[..i], c);
      assert ([s[..i]] + rest)[1..] == rest;
      assert s == s[..i] + [','] + s[i + 1..];
      [s[..i]] + rest
  }

  /** The characters `strip(' "\'')` removes. */
  predicate IsQuoteOrSpace(c: char)
  {
    c == ' ' || c == '"' || c == '\''
  }

  /** Neither end is a quote or a space. */
  predicate QuoteTrimmed(s: string)
  {
    s == [] || (!IsQuoteOrSpace(s[0]) && !IsQuoteOrSpace(s[|s| - 1]))
  }

  /** `s` is what the comprehension keeps of the piece `p`. */
  predicate KeptPiece(p: string, s: string)
  {
    Strip(p) != [] && s == Trim(p, IsQuoteOrSpace)
  }

  /** Every skill is quote-trimmed and is what the comprehension keeps of
      one of the pieces. */
  predicate AllKept(skills: seq<string>, pieces: seq<string>)
  {
    forall s :: s in skills ==> QuoteTrimmed(s) && exists p :: p in pieces && KeptPiece(p, s)
  }

  lemma AllKeptWiden(skills: seq<string>, pieces: seq<string>)
    requires pieces != [] && AllKept(skills, pieces[1..])
    ensures AllKept(skills, pieces)
  {
    assert forall p :: p in pieces[1..] ==> p in pieces;
  }

  lemma AllKeptAdd(skills: seq<string>, pieces: seq<string>)
    requires pieces != [] && Strip(pieces[0]) != [] && AllKept(skills, pieces)
    ensures AllKept([Trim(pieces[0], IsQuoteOrSpace)] + skills, pieces)
  {
    var head := Trim(pieces[0], IsQuoteOrSpace);
    assert QuoteTrimmed(head) && KeptPiece(pieces[0], head);
    assert pieces[0] in pieces;
  }

  /** Every non-blank piece is kept, trimmed. */
  predicate NoneDropped(skills: seq<string>, pieces: seq<string>)
  {
    forall p :: p in pieces && Strip(p) != [] ==> Trim(p, IsQuoteOrSpace) in skills
  }

  lemma NoneDroppedAdd(skills: seq<string>, pieces: seq<string>)
    requires pieces != [] && NoneDropped(skills, pieces[1..])
    ensures NoneDropped(if Strip(pieces[0]) != [] then [Trim(pieces[0], IsQuoteOrSpace)] + skills else skills, pieces)
  {
    assert forall p :: p in pieces ==> p == pieces[0] || p in pieces[1..];
  }

  /** `[s.strip(' "\'') for s in pieces if s.strip()]` */
  function KeepSkills(pieces: seq<string>): (skills: seq<string>)
    ensures |skills| <= |pieces|
    ensures AllKept(skills, pieces)
  {
    if pieces == [] then []
    else
      var rest := KeepSkills(pieces[1..]);
      AllKeptWiden(rest, pieces);
      if Strip(pieces[0]) != [] then
        AllKeptAdd(rest, pieces);
        [Trim(pieces[0], IsQuoteOrSpace)] + rest
      else rest
  }

  /** No non-blank piece is dropped. */
  lemma {:induction false} KeepSkillsComplete(pieces: seq<string>)
    ensures NoneDropped(KeepSkills(pieces), pieces)
  {
    if pieces != [] {
      KeepSkillsComplete(pieces[1..]);
      NoneDroppedAdd(KeepSkills(pieces[1..]), pieces);
    }
  }

  /** What the comprehension keeps of one piece. */
  function KeptHead(p: string): (r: seq<string>)
    ensures |r| <= 1
  {
    if Strip(p) != [] then [Trim(p, IsQuoteOrSpace)] else []
  }

  lemma KeepSkillsCons(p: string, rest: seq<string>)
    ensures KeepSkills([p] + rest) == KeptHead(p) + KeepSkills(rest)
  {
    assert ([p] + rest)[0] == p && ([p] + rest)[1..] == rest;
  }

  lemma {:induction false} KeepSkillsAppend(a: seq<string>, b: seq<string>)
    ensures KeepSkills(a + b) == KeepSkills(a) + KeepSkills(b)
  {
    if a == [] {
      assert a + b == b;
    } else {
      var p, a' := a[0], a[1..];
      calc {
        KeepSkills(a + b);
        { assert a + b == [p] + (a' + b); }
        KeepSkills([p] + (a' + b));
        { KeepSkillsCons(p, a' + b); }
        KeptHead(p) + KeepSkills(a' + b);
        { KeepSkillsAppend(a', b); }
        KeptHead(p) + (KeepSkills(a') + KeepSkills(b));
        (KeptHead(p) + KeepSkills(a')) + KeepSkills(b);
        { KeepSkillsCons(p, a'); assert a == [p] + a'; }
        KeepSkills(a) + KeepSkills(b);
      }
    }
  }

  /** A fallback skill list: `[]` when the key is absent, otherwise the
      trimmed non-blank comma-separated pieces of the bracketed text. */
  function FallbackSkills(t: string, key: string): (skills: seq<string>)
    ensures ListContent(t, key).None? ==> skills == []
    ensures forall s :: s in skills ==> QuoteTrimmed(s)
    ensures forall s :: s in skills ==> Lacks(s, ',') && Lacks(s, ']')
    ensures ListContent(t, key).Some? ==> NoneDropped(skills, SplitOnComma(ListContent(t, key).value))
    ensures ListContent(t, key).Some? ==> skills == KeepSkills(SplitOnComma(ListContent(t, key).value))
  {
    match ListContent(t, key)
    case None => []
    case Some(content) =>
      var pieces := SplitOnComma(content);
      var skills := KeepSkills(pieces);
      KeepSkillsComplete(pieces);
      forall s | s in skills ensures Lacks(s, ',') && Lacks(s, ']') {
        var p :| p in pieces && KeptPiece(p, s);
        TrimLacks(p, IsQuoteOrSpace, ',');
        TrimLacks(p, IsQuoteOrSpace, ']');
      }
      skills
  }

  const MultilineReply: string := "\"matched_skills\": [\n\"sql\"\n]"
  const MatchedKey: string := "\"matched_skills\":"
  /** The bracketed text of `MultilineReply`: one quoted item on its own line. */
  const SqlLine: string := "\n\"sql\"\n"

  /** Where the brackets of `MultilineReply` are. */
  lemma MultilineBrackets()
    ensures SkipForward(MultilineReply, IsSpace, |MatchedKey|) == 18
    ensures FindChar(MultilineReply, ']', 19) == Some(26)
  {
    var t := MultilineReply;
    assert SkipForward(t, IsSpace, 17) == 18 by {
      assert SkipForward(t, IsSpace, 18) == 18;
    }
    MultilineClosingBracket(19);
  }

  lemma {:induction false} MultilineClosingBracket(from: nat)
    requires 19 <= from <= 26
    ensures FindChar(MultilineReply, ']', from) == Some(26)
    decreases 26 - from
  {
    if from < 26 {
      MultilineClosingBracket(from + 1);
      assert MultilineReply[from] != ']';
    }
  }

  lemma MultilineListOpensAtStart()
    ensures ListOpensAt(MultilineReply, MatchedKey, 0)
  {
    MultilineBrackets();
    assert StartsWithAt(MultilineReply, 0, MatchedKey);
  }

  lemma MultilineReplyContent()
    ensures ListContent(MultilineReply, MatchedKey) == Some(SqlLine)
  {
    MultilineBrackets();
    MultilineListOpensAtStart();
    assert FirstListAt(MultilineReply, MatchedKey, 0) == Some(0);
    assert MultilineReply[19..26] == SqlLine;
  }

  lemma SqlLineIsNotBlank()
    ensures Strip(SqlLine) == SqlLine[1..|SqlLine| - 1]
  {
    var c := SqlLine;
    assert IsSpace(c[0]) && !IsSpace(c[1]);
    assert SkipForward(c, IsSpace, 1) == 1;
    assert SkipForward(c, IsSpace, 0) == 1;
    assert IsSpace(c[|c| - 1]) && !IsSpace(c[|c| - 2]);
    assert SkipBackward(c, IsSpace, 1, |c| - 1) == |c| - 1;
    assert SkipBackward(c, IsSpace, 1, |c|) == |c| - 1;
  }

  lemma SqlLineKeepsQuotes()
    ensures Trim(SqlLine, IsQuoteOrSpace) == SqlLine
  {
    assert SkipForward(SqlLine, IsQuoteOrSpace, 0) == 0;
    assert SkipBackward(SqlLine, IsQuoteOrSpace, 0, |SqlLine|) == |SqlLine|;
  }

  lemma SqlLineIsOnePiece()
    ensures SplitOnComma(SqlLine) == [SqlLine]
  {
    assert FindChar(SqlLine, ',', 0) == None by {
      assert Lacks(SqlLine, ',');
    }
  }

  lemma SqlLineIsKept()
    ensures KeepSkills([SqlLine]) == [SqlLine]
  {
    SqlLineIsNotBlank();
    SqlLineKeepsQuotes();
    assert [SqlLine][1..] == [];
  }

  /** The splitting trims only spaces and quotes: in a list written one item
      per line the newlines stay, and so do the quotes next to them. */
  lemma MultilineListKeepsQuotes()
    ensures FallbackSkills(MultilineReply, MatchedKey) == ["\n\"sql\"\n"]
  {
    MultilineReplyContent();
    SqlLineIsOnePiece();
    SqlLineIsKept();
  }

  const RecKey: string := "\"recommendations\":"

  /** `$` without MULTILINE: at the end, or before a final newline. */
  predicate AtEnd(t: string, p: nat)
  {
    p == |t| || (p == |t| - 1 && t[p] == '\n')
  }

  /** `(?:\s*\})?$` matches at `p`. */
  predicate ClosingTailAt(t: string, p: nat)
    requires p <= |t|
  {
    var q := SkipForward(t, IsSpace, p);
    (q < |t| && t[q] == '}' && AtEnd(t, q + 1)) || AtEnd(t, p)
  }

  /** First `"` at or after `from` that is followed by a closing tail: where
      the lazy group of the recommendations pattern stops. */
  function ClosingQuote(t: string, from: nat): (r: Option<nat>)
    ensures r.Some? ==> from <= r.value < |t| && t[r.value] == '"' && ClosingTailAt(t, r.value + 1)
    ensures r.Some? ==> forall b :: from <= b < r.value ==> !(t[b] == '"' && ClosingTailAt(t, b + 1))
    ensures r.None? ==> forall b :: from <= b < |t| ==> !(t[b] == '"' && ClosingTailAt(t, b + 1))
    decreases |t| - from
  {
    if from >= |t| then None
    else if t[from] == '"' && ClosingTailAt(t, from + 1) then Some(from)
    else ClosingQuote(t, from + 1)
  }

  /** Where the opening quote of the recommendations must be when the key
      starts at `i`. */
  function RecQuoteAt(t: string, i: nat): nat
  {
    if i + |RecKey| <= |t| then SkipForward(t, IsSpace, i + |RecKey|) else |t|
  }

  /** `"recommendations":\s*"(.*?)"(?:\s*\})?$` (DOTALL) matches at `i`. */
  predicate RecOpensAt(t: string, i: nat)
  {
    StartsWithAt(t, i, RecKey)
    && var q := RecQuoteAt(t, i);
       q < |t| && t[q] == '"' && ClosingQuote(t, q + 1).Some?
  }

  function FirstRecAt(t: string, from: nat): (r: Option<nat>)
    ensures r.Some? ==> from <= r.value && RecOpensAt(t, r.value)
                        && forall i :: from <= i < r.value ==> !RecOpensAt(t, i)
    ensures r.None? ==> forall i :: from <= i ==> !RecOpensAt(t, i)
    decreases |t| - from
  {
    if from >= |t| then None
    else if RecOpensAt(t, from) then Some(from)
    else FirstRecAt(t, from + 1)
  }

  /** The group the recommendations pattern captures when it matches at
      `i`: from after the opening quote up to the first quote followed by a
      closing tail, since the lazy group stops as early as it can. */
  function RecGroup(t: string, i: nat): (r: string)
    requires RecOpensAt(t, i)
    ensures var q := RecQuoteAt(t, i);
            q < |t| && t[q] == '"' && q + 1 + |r| <= |t| && r == t[q + 1..q + 1 + |r|]
            && ClosingQuote(t, q + 1) == Some(q + 1 + |r|)
  {
    var q := RecQuoteAt(t, i);
    t[q + 1..ClosingQuote(t, q + 1).value]
  }

  /** The fallback `recommendations`: the whole reply unless the pattern
      matches, then the group captured at the leftmost match. */
  function FallbackRecommendations(t: string): string
  {
    match FirstRecAt(t, 0)
    case None => t
    case Some(i) => RecGroup(t, i)
  }

  /** Without a match of the pattern the whole reply is kept. */
  lemma FallbackRecommendationsDefault(t: string)
    requires forall i :: !RecOpensAt(t, i)
    ensures FallbackRecommendations(t) == t
  {
    if FirstRecAt(t, 0).Some? {
      assert false;
    }
  }

  /** With a match, the recommendations are the group captured at the
      leftmost match. */
  lemma FallbackRecommendationsCaptured(t: string, i: nat)
    requires RecOpensAt(t, i) && forall j :: 0 <= j < i ==> !RecOpensAt(t, j)
    ensures FallbackRecommendations(t) == RecGroup(t, i)
  {
    assert FirstRecAt(t, 0) == Some(i);
  }

  /** A list of Python strings as JSON. */
  function StringArray(ss: seq<string>): (items: seq<Json>)
    ensures |items| == |ss|
  {
    seq(|ss|, i requires 0 <= i < |ss| => JString(ss[i]))
  }

  /** Reads a JSON array back as strings: `None` unless every item is a
      string. */
  function AsStrings(items: seq<Json>): (r: Option<seq<string>>)
    ensures r.Some? <==> forall i :: 0 <= i < |items| ==> items[i].JString?
  {
    if items == [] then Some([])
    else
      match AsStrings(items[1..])
      case None =>
        assert !items[1..][0].JString? || exists i :: 1 <= i < |items| && !items[i].JString?;
        None
      case Some(rest) =>
        assert forall i :: 1 <= i < |items| ==> items[i] == items[1..][i - 1];
        if items[0].JString? then Some([items[0].str] + rest) else None
  }

  lemma {:induction false} AsStringsOfStringArray(ss: seq<string>)
    ensures AsStrings(StringArray(ss)) == Some(ss)
  {
    if ss != [] {
      AsStringsOfStringArray(ss[1..]);
      assert StringArray(ss)[1..] == StringArray(ss[1..]);
      assert ss == [ss[0]] + ss[1..];
    }
  }

  /** The reply the fallback builds. */
  datatype FallbackReply = FallbackReply(
    matchScore: real,
    matchedSkills: seq<string>,
    missingSkills: seq<string>,
    recommendations: string)
  {
    /** The dict literal returned at the end of the parser. */
    function ToJson(): (j: Json)
      ensures j.JObject?
      ensures j.fields.Keys == {"match_score", "matched_skills", "missing_skills", "recommendations"}
      ensures j.fields["match_score"] == JNumber(matchScore)
      ensures j.fields["recommendations"] == JString(recommendations)
      ensures j.fields["matched_skills"].JArray? && AsStrings(j.fields["matched_skills"].items) == Some(matchedSkills)
      ensures j.fields["missing_skills"].JArray? && AsStrings(j.fields["missing_skills"].items) == Some(missingSkills)
    {
      AsStringsOfStringArray(matchedSkills);
      AsStringsOfStringArray(missingSkills);
      JObject(map[
        "match_score" := JNumber(matchScore),
        "matched_skills" := JArray(StringArray(matchedSkills)),
        "missing_skills" := JArray(StringArray(missingSkills)),
        "recommendations" := JString(recommendations)])
    }
  }

  function Fallback(t: string): (f: FallbackReply)
    ensures f.matchScore >= 0.0
  {
    FallbackReply(
      FallbackScore(t),
      FallbackSkills(t, "\"matched_skills\":"),
      FallbackSkills(t, "\"missing_skills\":"),
      FallbackRecommendations(t))
  }

  /** `_parse_job_match_response`: the first stage that succeeds decides the
      result; none of them can raise out of the parser. */
  method ParseJobMatchResponse(text: string, loads: string -> Option<Json>,
                               searchObject: string -> Option<string>,
                               findObjects: string -> seq<string>) returns (r: Json)
    ensures loads(text).Some? ==> r == loads(text).value
    ensures loads(text).None? && ObjectStage(text, loads, searchObject).Returned?
            ==> r == ObjectStage(text, loads, searchObject).value
    ensures loads(text).None? && !ObjectStage(text, loads, searchObject).Returned?
            && FirstScoredObject(findObjects(text), loads).Some?
            ==> r == FirstScoredObject(findObjects(text), loads).value
    ensures loads(text).None? && !ObjectStage(text, loads, searchObject).Returned?
            && FirstScoredObject(findObjects(text), loads).None?
            ==> r == Fallback(text).ToJson()
  {
    // Stage 1: the whole reply as JSON, whatever its shape.
    var direct := loads(text);
    if direct.Some? {
      return direct.value;
    }
    // Stage 2 always falls through.
    var markdown := MarkdownStage(text);
    if markdown.Returned? {
      assert false;
    }
    // Stage 3
    var found := ObjectStage(text, loads, searchObject);
    if found.Returned? {
      return found.value;
    }
    // Stage 4
    var objs := findObjects(text);
    var n := 0;
    while n < |objs|
      invariant 0 <= n <= |objs|
      invariant FirstScoredFrom(objs, loads, 0) == FirstScoredFrom(objs, loads, n)
    {
      var parsed := loads(objs[n]);
      if parsed.Some? && ContainsKey(parsed.value, "match_score") == Some(true) {
        return parsed.value;
      }
      n := n + 1;
    }
    // Fallback
    r := Fallback(text).ToJson();
  }
}

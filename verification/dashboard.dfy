/** The decision logic of the Streamlit dashboard (frontend.py): the
    gamified career-readiness score of the home page, the match-score
    message tiers, question previews, the registration form's checks and
    the match scores kept in the session.

    The counts the home page fetches from the backend arrive as
    parameters; rendering, colours and emoji decorations are not modelled. */
module Dashboard {
  import opened Wrappers
  import opened Text
  import Backend

  // ---- The career-readiness score of `show_home_page`

  /** The readiness tiers, from the lowest to the highest. */
  datatype Tier =
    | Beginner
    | GettingStarted
    | ActiveJobSeeker
    | CareerOptimizer
    | PowerUser
    | CareerExpert
    | CareerMaster

  /** The score band the home page's comments give each tier's level:
      level 1 (0-25), level 2 (26-50), level 3 (51-75), level 4 (76-100). */
  function BandLow(t: Tier): nat
  {
    match t
    case Beginner | GettingStarted => 0
    case ActiveJobSeeker => 26
    case CareerOptimizer => 51
    case PowerUser | CareerExpert | CareerMaster => 76
  }

  function BandHigh(t: Tier): nat
  {
    match t
    case Beginner | GettingStarted => 25
    case ActiveJobSeeker => 50
    case CareerOptimizer => 75
    case PowerUser | CareerExpert | CareerMaster => 100
  }

  /** Resumes, matches and advice queries all at the power-user level. */
  predicate PowerLevel(resumeCount: nat, matchCount: nat, adviceCount: nat)
  {
    resumeCount >= 2 && matchCount >= 5 && adviceCount >= 5
  }

  /** The tier as the highest level the user has reached. */
  function ReadinessTier(resumeCount: nat, matchCount: nat, adviceCount: nat,
                         bestMatchScore: real, totalSkills: int): Tier
  {
    if PowerLevel(resumeCount, matchCount, adviceCount) then
      if bestMatchScore >= 80.0 then CareerMaster
      else if totalSkills >= 15 then CareerExpert
      else PowerUser
    else if adviceCount > 0 then CareerOptimizer
    else if matchCount > 0 then ActiveJobSeeker
    else if resumeCount > 0 then GettingStarted
    else Beginner
  }

  /** The score within the tier reached: the count that drives the tier
      picks the step inside its band. */
  function ReadinessScore(resumeCount: nat, matchCount: nat, adviceCount: nat,
                          bestMatchScore: real, totalSkills: int): nat
  {
    match ReadinessTier(resumeCount, matchCount, adviceCount, bestMatchScore, totalSkills)
    case Beginner => 0
    case GettingStarted => if totalSkills >= 5 then 25 else 15
    case ActiveJobSeeker => if matchCount >= 5 then 50 else if matchCount >= 3 then 45 else 35
    case CareerOptimizer => if adviceCount >= 5 then 75 else if adviceCount >= 3 then 65 else 55
    case PowerUser => 85
    case CareerExpert => 95
    case CareerMaster => 100
  }

  /** The next-goal messages of the home page. */
  datatype Goal =
    | UploadFirstResume
    | FirstJobMatch
    | ThreeJobMatches
    | ThreeAdviceQueries
    | UseAdviceThreeTimes
    | KeepExploringAdvice
    | ReachPowerUser
    | FiveJobMatches
    | MoreResumesAndMatches
    | FifteenSkills
    | EightyPercentMatch
    | Mastered

  /** The text each next-goal message shows. */
  function GoalText(g: Goal): string
  {
    match g
    case UploadFirstResume => "Upload your first resume to begin your journey"
    case FirstJobMatch => "Complete 1 job match to reach Active Job Seeker"
    case ThreeJobMatches => "Complete 3 job matches to reach Active Job Seeker"
    case ThreeAdviceQueries => "Complete 3 career advice queries to reach Career Optimizer"
    case UseAdviceThreeTimes => "Use career advice 3 times to level up"
    case KeepExploringAdvice => "Keep exploring career advice to level up"
    case ReachPowerUser => "Upload 2+ resumes and complete 5+ matches to reach Power User"
    case FiveJobMatches => "Complete 5 job matches to reach Power User"
    case MoreResumesAndMatches => "Upload multiple resumes and get 5+ job matches"
    case FifteenSkills => "Get 15+ skills to reach Expert"
    case EightyPercentMatch => "Achieve 80%+ job match score to reach Master"
    case Mastered => "You've mastered Career Compass! \U{1F389}"
  }

  /** The next goal for the tier reached and the step within it. */
  function NextGoal(resumeCount: nat, matchCount: nat, adviceCount: nat,
                    bestMatchScore: real, totalSkills: int): Goal
  {
    match ReadinessTier(resumeCount, matchCount, adviceCount, bestMatchScore, totalSkills)
    case Beginner => UploadFirstResume
    case GettingStarted =>
      if totalSkills >= 5 then ThreeJobMatches
      else FirstJobMatch
    case ActiveJobSeeker =>
      if matchCount >= 5 then KeepExploringAdvice
      else if matchCount >= 3 then UseAdviceThreeTimes
      else ThreeAdviceQueries
    case CareerOptimizer =>
      if adviceCount >= 5 then MoreResumesAndMatches
      else if adviceCount >= 3 then FiveJobMatches
      else ReachPowerUser
    case PowerUser => FifteenSkills
    case CareerExpert => EightyPercentMatch
    case CareerMaster => Mastered
  }

  function NatMax(a: nat, b: nat): nat
  {
    if a >= b then a else b
  }

  /** The readiness block of `show_home_page`: each level's block, run in
      order, overrides what the blocks before it set. */
  method CareerReadiness(resumeCount: nat, matchCount: nat, adviceCount: nat,
                         bestMatchScore: real, totalSkills: int)
    returns (score: nat, tier: Tier, nextGoal: Goal)
    ensures tier == ReadinessTier(resumeCount, matchCount, adviceCount, bestMatchScore, totalSkills)
    ensures score == ReadinessScore(resumeCount, matchCount, adviceCount, bestMatchScore, totalSkills)
    ensures nextGoal == NextGoal(resumeCount, matchCount, adviceCount, bestMatchScore, totalSkills)
  {
    score := 0;
    tier := Beginner;
    nextGoal := UploadFirstResume;

    // Level 1: Getting Started
    if resumeCount > 0 {
      score := 15;
      tier := GettingStarted;
      nextGoal := FirstJobMatch;
      if totalSkills >= 5 {
        score := 25;
        nextGoal := ThreeJobMatches;
      }
    }

    // Level 2: Active Job Seeker
    if matchCount > 0 {
      score := 35;
      tier := ActiveJobSeeker;
      nextGoal := ThreeAdviceQueries;
      if matchCount >= 3 {
        score := 45;
        nextGoal := UseAdviceThreeTimes;
      }
      if matchCount >= 5 {
        score := 50;
        nextGoal := KeepExploringAdvice;
      }
    }

    // Level 3: Career Optimizer
    if adviceCount > 0 {
      score := NatMax(score, 55);
      tier := CareerOptimizer;
      nextGoal := ReachPowerUser;
      if adviceCount >= 3 {
        score := 65;
        nextGoal := FiveJobMatches;
      }
      if adviceCount >= 5 {
        score := 75;
        nextGoal := MoreResumesAndMatches;
      }
    }

    // Level 4: Power User, with its two bonuses
    if resumeCount >= 2 && matchCount >= 5 && adviceCount >= 5 {
      score := 85;
      tier := PowerUser;
      nextGoal := FifteenSkills;
      if totalSkills >= 15 {
        score := 95;
        tier := CareerExpert;
        nextGoal := EightyPercentMatch;
      }
      if bestMatchScore >= 80.0 {
        score := 100;
        tier := CareerMaster;
        nextGoal := Mastered;
      }
    }
  }

  /** The score is one of twelve values, all within 0-100. */
  lemma ReadinessScoreValues(resumeCount: nat, matchCount: nat, adviceCount: nat,
                             bestMatchScore: real, totalSkills: int)
    ensures ReadinessScore(resumeCount, matchCount, adviceCount, bestMatchScore, totalSkills)
            in {0, 15, 25, 35, 45, 50, 55, 65, 75, 85, 95, 100}
  {
  }

  /** The score lies in the band of its tier's level, so it is at most 100. */
  lemma ReadinessScoreInBand(resumeCount: nat, matchCount: nat, adviceCount: nat,
                             bestMatchScore: real, totalSkills: int)
    ensures var t := ReadinessTier(resumeCount, matchCount, adviceCount, bestMatchScore, totalSkills);
            var s := ReadinessScore(resumeCount, matchCount, adviceCount, bestMatchScore, totalSkills);
            BandLow(t) <= s <= BandHigh(t) <= 100
  {
  }

  /** Nothing uploaded, matched or asked: the score is 0 and the tier
      Beginner, and only then. */
  lemma BeginnerExactlyWithoutActivity(resumeCount: nat, matchCount: nat, adviceCount: nat,
                                       bestMatchScore: real, totalSkills: int)
    ensures ReadinessTier(resumeCount, matchCount, adviceCount, bestMatchScore, totalSkills) == Beginner
            <==> resumeCount == 0 && matchCount == 0 && adviceCount == 0
    ensures ReadinessScore(resumeCount, matchCount, adviceCount, bestMatchScore, totalSkills) == 0
            <==> resumeCount == 0 && matchCount == 0 && adviceCount == 0
  {
  }

  /** The next-goal card, shown while the score is below 100. */
  predicate ShowsNextGoal(score: nat)
  {
    score < 100
  }

  /** The full score needs two resumes, five matches, five advice queries
      and a best match of at least 80; exactly then the next-goal card is
      hidden. */
  lemma FullScoreExactly(resumeCount: nat, matchCount: nat, adviceCount: nat,
                         bestMatchScore: real, totalSkills: int)
    ensures var s := ReadinessScore(resumeCount, matchCount, adviceCount, bestMatchScore, totalSkills);
            (s == 100 <==> PowerLevel(resumeCount, matchCount, adviceCount) && bestMatchScore >= 80.0)
            && (ShowsNextGoal(s) <==> !(PowerLevel(resumeCount, matchCount, adviceCount) && bestMatchScore >= 80.0))
  {
  }

  /** More activity never lowers the score. */
  lemma ReadinessScoreMonotone(r1: nat, m1: nat, a1: nat, b1: real, k1: int,
                               r2: nat, m2: nat, a2: nat, b2: real, k2: int)
    requires r1 <= r2 && m1 <= m2 && a1 <= a2 && b1 <= b2 && k1 <= k2
    ensures ReadinessScore(r1, m1, a1, b1, k1) <= ReadinessScore(r2, m2, a2, b2, k2)
  {
  }

  // ---- Match-score messages

  /** The three messages of the job-match result and of the history page. */
  datatype MatchTier = Excellent | Good | Partial

  function MatchTierOf(score: real): (t: MatchTier)
    ensures t == Excellent <==> score >= 80.0
    ensures t == Good <==> 60.0 <= score < 80.0
    ensures t == Partial <==> score < 60.0
  {
    if score >= 80.0 then Excellent
    else if score >= 60.0 then Good
    else Partial
  }

  // ---- Question previews

  /** `q[:80] + "..." if len(q) > 80 else q` */
  function Preview(q: string): (r: string)
    ensures |q| <= 80 ==> r == q
    ensures |q| > 80 ==> |r| == 83 && r[..80] == q[..80] && EndsWith(r, "...")
    ensures |r| <= 83
  {
    Ellipsize(q, 80)
  }

  // ---- The registration form

  /** What submitting the registration form does. */
  datatype FormOutcome = MissingField | PasswordsDiffer | PasswordTooShort | Submitted

  /** The form's checks, in their order: every field filled in, the two
      passwords equal, the password at least 6 characters long. */
  function RegistrationForm(email: string, username: string, password: string,
                            confirm: string): (r: FormOutcome)
    ensures r == Submitted <==> email != [] && username != [] && password != []
                                && password == confirm && |password| >= 6
    ensures r == MissingField <==> email == [] || username == [] || password == []
    ensures r == PasswordsDiffer <==> email != [] && username != [] && password != []
                                      && password != confirm
    ensures r == PasswordTooShort <==> email != [] && username != [] && password != []
                                       && password == confirm && |password| < 6
  {
    if email == [] || username == [] || password == [] then MissingField
    else if password != confirm then PasswordsDiffer
    else if |password| < 6 then PasswordTooShort
    else Submitted
  }

  /** A request the form submits never fails the backend's password-length
      check; only an existing e-mail or username can refuse it. */
  lemma SubmittedFormPassesPasswordCheck(emails: set<string>, usernames: set<string>,
                                         email: string, username: string,
                                         password: string, confirm: string)
    requires RegistrationForm(email, username, password, confirm) == Submitted
    ensures Backend.RegisterCheck(emails, usernames, email, username, password)
            != Err(Backend.PasswordTooShort)
  {
  }

  // ---- Match scores kept in the session

  function RealMax(a: real, b: real): real
  {
    if a >= b then a else b
  }

  /** Python's `max` of a non-empty list, folded from the left. */
  function MaxOf(s: seq<real>): real
    requires s != []
  {
    if |s| == 1 then s[0] else RealMax(MaxOf(s[..|s| - 1]), s[|s| - 1])
  }

  /** The maximum is an element and bounds every element. */
  lemma {:induction false} MaxOfIsMaximum(s: seq<real>)
    requires s != []
    ensures MaxOf(s) in s
    ensures forall i :: 0 <= i < |s| ==> s[i] <= MaxOf(s)
  {
    if |s| > 1 {
      var init := s[..|s| - 1];
      MaxOfIsMaximum(init);
      assert forall i :: 0 <= i < |init| ==> init[i] == s[i];
      assert MaxOf(init) in s by {
        var j :| 0 <= j < |init| && init[j] == MaxOf(init);
        assert s[j] == MaxOf(init);
      }
    }
  }

  /** Appending a score updates the maximum by one comparison. */
  lemma MaxOfAppend(s: seq<real>, x: real)
    requires s != []
    ensures MaxOf(s + [x]) == RealMax(MaxOf(s), x)
  {
    assert (s + [x])[..|s|] == s;
  }

  /** The score the match reply reports: `result.get('match_score', 0)`. */
  function ReportedScore(reported: Option<real>): real
  {
    match reported
    case None => 0.0
    case Some(x) => x
  }

  /** The match-tracking part of the session state. */
  class MatchSession {
    var matchCount: nat
    var matchScores: seq<real>
    var bestMatchScore: real

    /** The count and the list grow together, and the best score is the
        maximum of the list (0 before the first match). */
    predicate Valid()
      reads this
    {
      matchCount == |matchScores|
      && bestMatchScore == (if matchScores == [] then 0.0 else MaxOf(matchScores))
    }

    /** The session's initial values. */
    constructor ()
      ensures Valid()
      ensures matchCount == 0 && matchScores == [] && bestMatchScore == 0.0
    {
      matchCount := 0;
      matchScores := [];
      bestMatchScore := 0.0;
    }

    /** A successful job match: count it, record its score, recompute the
        best score, and pick the message for the score. */
    method RecordMatch(reported: Option<real>) returns (tier: MatchTier)
      requires Valid()
      modifies this
      ensures Valid()
      ensures matchCount == old(matchCount) + 1
      ensures matchScores == old(matchScores) + [ReportedScore(reported)]
      ensures bestMatchScore == if old(matchScores) == [] then ReportedScore(reported)
                                else RealMax(old(bestMatchScore), ReportedScore(reported))
      ensures bestMatchScore in matchScores
      ensures forall i :: 0 <= i < |matchScores| ==> matchScores[i] <= bestMatchScore
      ensures tier == MatchTierOf(ReportedScore(reported))
    {
      matchCount := matchCount + 1;
      var score := ReportedScore(reported);
      if matchScores != [] {
        MaxOfAppend(matchScores, score);
      }
      matchScores := matchScores + [score];
      bestMatchScore := MaxOf(matchScores);
      MaxOfIsMaximum(matchScores);
      tier := MatchTierOf(score);
    }
  }
}

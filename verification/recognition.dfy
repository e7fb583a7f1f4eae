/** The identity resolver of `attendance_mark` (app/main.py): per-model
    default parameters, the effective distance threshold, and the accept /
    reject rule applied to the face matcher's rows. The matcher itself is not
    modelled; its rows arrive as a sequence of candidates. */
module Recognition {
  import opened Results
  import opened Text
  import opened Sorting
  import opened Paths

  datatype Metric = Cosine | EuclideanL2

  datatype ModelDefaults = ModelDefaults(metric: Metric, maxDistance: real)

  /** FACE_MIN_MARGIN when the environment does not set it. */
  const DefaultMinMargin: real := 0.04

  /** `_defaults_for_model`: the family check is a case-insensitive substring
      test, "arc" first. The facenet family and every other model share the
      cosine defaults. */
  function DefaultsForModel(modelName: string): (r: ModelDefaults)
    ensures r.metric == EuclideanL2 <==> Contains(Lower(modelName), "arc")
    ensures r.maxDistance == (if r.metric == EuclideanL2 then 1.20 else 0.30)
  {
    var name := Lower(modelName);
    if Contains(name, "arc") then ModelDefaults(EuclideanL2, 1.20)
    else if Contains(name, "facenet") then ModelDefaults(Cosine, 0.30)
    else ModelDefaults(Cosine, 0.30)
  }

  lemma LowerUpper(s: string)
    ensures Lower(Upper(s)) == Lower(s)
  {
  }

  /** The defaults do not depend on the case of the model name. */
  lemma DefaultsIgnoreCase(modelName: string)
    ensures DefaultsForModel(Upper(modelName)) == DefaultsForModel(modelName)
    ensures DefaultsForModel(Lower(modelName)) == DefaultsForModel(modelName)
  {
    LowerUpper(modelName);
    assert Lower(Lower(modelName)) == Lower(modelName);
  }

  /** A needle with a character the haystack lacks does not occur in it. */
  lemma MissingCharNotContained(hay: string, needle: string, k: int)
    requires 0 <= k < |needle|
    requires forall i | 0 <= i < |hay| :: hay[i] != needle[k]
    ensures !Contains(hay, needle)
  {
    forall i | 0 <= i <= |hay|
      ensures !OccursAt(hay, needle, i)
    {
      if i + |needle| <= |hay| {
        assert hay[i..i + |needle|][k] == hay[i + k];
      }
    }
  }

  /** The three model families named in the configuration comments. */
  lemma ArcFaceDefaults()
    ensures DefaultsForModel("ArcFace") == ModelDefaults(EuclideanL2, 1.20)
  {
    assert OccursAt(Lower("ArcFace"), "arc", 0);
  }

  lemma FacenetDefaults()
    ensures DefaultsForModel("Facenet512") == ModelDefaults(Cosine, 0.30)
  {
    MissingCharNotContained(Lower("Facenet512"), "arc", 1);
  }

  /** The facenet branch and the fall-through give the same defaults. */
  lemma VggFaceDefaults()
    ensures DefaultsForModel("VGG-Face") == DefaultsForModel("Facenet512")
  {
    VggFaceIsNotArc();
    FacenetDefaults();
  }

  lemma VggFaceIsNotArc()
    ensures !Contains(Lower("VGG-Face"), "arc")
  {
    MissingCharNotContained(Lower("VGG-Face"), "arc", 1);
  }

  /** The threshold `attendance_mark` applies: the request's max_distance if
      given, else FACE_MAX_DISTANCE if set (an empty setting counts as unset),
      else the model default. */
  function EffectiveMaxDistance(requested: Option<real>, configured: Option<real>, modelName: string): (r: real)
    ensures requested.Some? ==> r == requested.value
    ensures requested.None? && configured.Some? ==> r == configured.value
    ensures requested.None? && configured.None? ==> r == DefaultsForModel(modelName).maxDistance
  {
    match requested
    case Some(d) => d
    case None =>
      match configured
      case Some(d) => d
      case None => DefaultsForModel(modelName).maxDistance
  }

  // ---------------------------------------------------------------------
  // The decision rule

  /** One matcher row: the matched gallery image path and its distance. */
  datatype Candidate = Candidate(identity: string, distance: real)

  datatype Params = Params(maxDistance: real, minMargin: real)

  datatype UnknownReason =
    | NoCandidates
    | AboveThreshold(distance: real)
    | LowMargin(distance: real, margin: real)

  datatype Decision = Unknown(reason: UnknownReason) | Accepted(identity: string, distance: real)

  function ByDistance(a: Candidate, b: Candidate): bool {
    a.distance <= b.distance
  }

  lemma ByDistanceIsTotalPreorder()
    ensures IsTotalPreorder(ByDistance)
  {
  }

  /** b is a closest row. */
  ghost predicate IsBest(b: Candidate, rows: seq<Candidate>) {
    b in rows && forall c | c in rows :: b.distance <= c.distance
  }

  /** The rows left once one occurrence of b is set aside. */
  function Others(b: Candidate, rows: seq<Candidate>): multiset<Candidate> {
    multiset(rows) - multiset{b}
  }

  /** s is a closest row among those other than b. */
  ghost predicate IsRunnerUp(s: Candidate, b: Candidate, rows: seq<Candidate>) {
    s in Others(b, rows) && forall c | c in Others(b, rows) :: s.distance <= c.distance
  }

  /** The decisions the rule allows for rows, stated without sorting: the
      threshold is tested on a closest row, the margin against the closest of
      the remaining rows, and an accepted identity is that of a closest row. */
  ghost predicate Explains(rows: seq<Candidate>, p: Params, d: Decision) {
    match d
    case Unknown(NoCandidates) =>
      |rows| == 0
    case Unknown(AboveThreshold(x)) =>
      exists b :: IsBest(b, rows) && b.distance == x && x > p.maxDistance
    case Unknown(LowMargin(x, m)) =>
      exists b, s :: IsBest(b, rows) && IsRunnerUp(s, b, rows)
        && b.distance == x && x <= p.maxDistance
        && m == s.distance - x && m < p.minMargin
    case Accepted(id, x) =>
      exists b :: IsBest(b, rows) && b.identity == id && b.distance == x && x <= p.maxDistance
        && forall c | c in Others(b, rows) :: c.distance - x >= p.minMargin
  }

  /** What a sorted permutation of non-empty rows shows: its head is a
      closest row and, when there is a second element, that element is a
      runner-up to the head. */
  lemma SortedHeadFacts(rows: seq<Candidate>, sorted: seq<Candidate>)
    requires |rows| > 0
    requires IsTotalPreorder(ByDistance)
    requires multiset(sorted) == multiset(rows) && SortedBy(sorted, ByDistance)
    ensures |sorted| == |rows|
    ensures IsBest(sorted[0], rows)
    ensures |sorted| == 1 ==> Others(sorted[0], rows) == multiset{}
    ensures |sorted| > 1 ==> IsRunnerUp(sorted[1], sorted[0], rows)
  {
    assert |sorted| == |multiset(sorted)| == |multiset(rows)| == |rows|;
    HeadIsLeast(rows, sorted, ByDistance);
    OthersOfSortedHead(rows, sorted);
    if |sorted| > 1 {
      SecondIsRunnerUp(rows, sorted);
    }
  }

  /** Setting the head aside leaves the tail. */
  lemma OthersOfSortedHead(rows: seq<Candidate>, sorted: seq<Candidate>)
    requires |sorted| > 0
    requires multiset(sorted) == multiset(rows) && SortedBy(sorted, ByDistance)
    ensures Others(sorted[0], rows) == multiset(sorted[1..])
  {
    PrefixPrecedesRest(sorted, 1, ByDistance);
    assert sorted[..1] == [sorted[0]];
  }

  lemma SecondIsRunnerUp(rows: seq<Candidate>, sorted: seq<Candidate>)
    requires |sorted| > 1
    requires multiset(sorted) == multiset(rows) && SortedBy(sorted, ByDistance)
    ensures IsRunnerUp(sorted[1], sorted[0], rows)
  {
    OthersOfSortedHead(rows, sorted);
    var tail := sorted[1..];
    assert sorted[1] == tail[0] && tail[0] in multiset(tail);
    forall c | c in Others(sorted[0], rows)
      ensures sorted[1].distance <= c.distance
    {
      var k :| 0 <= k < |tail| && tail[k] == c;
      assert sorted[k + 1] == c;
      if k > 0 {
        assert ByDistance(sorted[1], sorted[k + 1]);
      }
    }
  }


  /** The rule of `attendance_mark`: sort the rows by distance, reject when
      there are none, then when the best is strictly above the threshold,
      then when a second row lies strictly less than the margin behind it;
      otherwise accept the best row. */
  function Decide(rows: seq<Candidate>, p: Params): (r: Decision)
    ensures Explains(rows, p, r)
  {
    if |rows| == 0 then Unknown(NoCandidates)
    else
      ByDistanceIsTotalPreorder();
      var sorted := Sort(rows, ByDistance);
      SortedHeadFacts(rows, sorted);
      var best := sorted[0];
      if best.distance > p.maxDistance then
        Unknown(AboveThreshold(best.distance))
      else if |sorted| > 1 && sorted[1].distance - best.distance < p.minMargin then
        Unknown(LowMargin(best.distance, sorted[1].distance - best.distance))
      else
        Accepted(best.identity, best.distance)
  }

  lemma BestInOthers(b1: Candidate, b2: Candidate, rows: seq<Candidate>)
    requires b2 in rows && b1 != b2
    ensures b2 in Others(b1, rows)
  {
    assert multiset(rows)[b2] > 0;
  }

  /** When two different rows are both closest, every runner-up ties with
      them. */
  lemma RunnerUpOfTie(b: Candidate, b': Candidate, s: Candidate, rows: seq<Candidate>)
    requires IsBest(b, rows) && IsBest(b', rows) && b != b'
    requires IsRunnerUp(s, b, rows)
    ensures s.distance == b.distance
  {
    BestInOthers(b, b', rows);
    assert s in rows;
  }

  /** Runner-ups of closest rows are equally far. */
  lemma RunnerUpDistanceUnique(b: Candidate, s: Candidate, b': Candidate, s': Candidate, rows: seq<Candidate>)
    requires IsBest(b, rows) && IsRunnerUp(s, b, rows)
    requires IsBest(b', rows) && IsRunnerUp(s', b', rows)
    ensures s.distance == s'.distance
  {
    if b != b' {
      RunnerUpOfTie(b, b', s, rows);
      RunnerUpOfTie(b', b, s', rows);
    }
  }

  lemma AcceptedExcludesLowMargin(rows: seq<Candidate>, p: Params, x: real, b: Candidate, b': Candidate, s': Candidate)
    requires IsBest(b, rows) && b.distance == x
    requires forall c | c in Others(b, rows) :: c.distance - x >= p.minMargin
    requires IsBest(b', rows) && IsRunnerUp(s', b', rows)
    ensures s'.distance - b'.distance >= p.minMargin
  {
    if b == b' {
      assert s' in Others(b, rows);
    } else {
      BestInOthers(b, b', rows);
      RunnerUpOfTie(b', b, s', rows);
    }
  }

  /** Two decisions the rule allows for the same rows agree on everything
      but, when accepted, on which of several equally close rows is named. */
  lemma DecisionDeterminedUpToTies(rows: seq<Candidate>, p: Params, d1: Decision, d2: Decision)
    requires Explains(rows, p, d1) && Explains(rows, p, d2)
    ensures d1.Unknown? <==> d2.Unknown?
    ensures d1.Unknown? ==> d1 == d2
    ensures d1.Accepted? ==> d1.distance == d2.distance
  {
    if d1.Accepted? {
      AcceptedMarginHolds(rows, p, d1);
    }
    if d2.Accepted? {
      AcceptedMarginHolds(rows, p, d2);
    }
    if d1.Unknown? && d2.Unknown? && d1.reason.LowMargin? && d2.reason.LowMargin? {
      LowMarginsAgree(rows, p, d1, d2);
    }
  }

  /** When an acceptance is explained, every closest row clears the margin
      over every runner-up to it. */
  lemma AcceptedMarginHolds(rows: seq<Candidate>, p: Params, d: Decision)
    requires Explains(rows, p, d) && d.Accepted?
    ensures forall b', s' | IsBest(b', rows) && IsRunnerUp(s', b', rows) :: s'.distance - b'.distance >= p.minMargin
  {
    var b :| IsBest(b, rows) && b.distance == d.distance
      && forall c | c in Others(b, rows) :: c.distance - d.distance >= p.minMargin;
    forall b', s' | IsBest(b', rows) && IsRunnerUp(s', b', rows)
      ensures s'.distance - b'.distance >= p.minMargin
    {
      AcceptedExcludesLowMargin(rows, p, d.distance, b, b', s');
    }
  }

  /** Two low-margin explanations report the same distance and margin. */
  lemma LowMarginsAgree(rows: seq<Candidate>, p: Params, d1: Decision, d2: Decision)
    requires Explains(rows, p, d1) && Explains(rows, p, d2)
    requires d1.Unknown? && d2.Unknown? && d1.reason.LowMargin? && d2.reason.LowMargin?
    ensures d1 == d2
  {
    LowMarginReadsAnyPair(rows, p, d1);
    LowMarginReadsAnyPair(rows, p, d2);
    var b, s :| IsBest(b, rows) && IsRunnerUp(s, b, rows)
      && d1.reason.distance == b.distance && d1.reason.margin == s.distance - b.distance;
    assert d1.reason.distance == d2.reason.distance;
    assert d1.reason.margin == d2.reason.margin;
  }

  /** A low-margin explanation reads the same distance and margin off any
      closest row and any runner-up to it. */
  lemma LowMarginReadsAnyPair(rows: seq<Candidate>, p: Params, d: Decision)
    requires Explains(rows, p, d) && d.Unknown? && d.reason.LowMargin?
    ensures forall b, s | IsBest(b, rows) && IsRunnerUp(s, b, rows) ::
      d.reason.distance == b.distance && d.reason.margin == s.distance - b.distance
  {
    var b0, s0 :| IsBest(b0, rows) && IsRunnerUp(s0, b0, rows)
      && d.reason.distance == b0.distance && d.reason.margin == s0.distance - b0.distance;
    forall b, s | IsBest(b, rows) && IsRunnerUp(s, b, rows)
      ensures d.reason.distance == b.distance && d.reason.margin == s.distance - b.distance
    {
      BestDistanceUnique(b0, b, rows);
      RunnerUpDistanceUnique(b0, s0, b, s, rows);
    }
  }


  /** Closest rows are equally far. */
  lemma BestDistanceUnique(b: Candidate, b': Candidate, rows: seq<Candidate>)
    requires IsBest(b, rows) && IsBest(b', rows)
    ensures b.distance == b'.distance
  {
    assert b in rows && b' in rows;
  }


  /** A closest row beyond the threshold rejects, whatever the margin. */
  lemma AboveThresholdRegardlessOfMargin(rows: seq<Candidate>, p: Params)
    requires |rows| > 0
    requires forall c | c in rows :: c.distance > p.maxDistance
    ensures Decide(rows, p).Unknown? && Decide(rows, p).reason.AboveThreshold?
  {
  }

  /** A row value that occurs at two positions is among the others of itself. */
  lemma DuplicateInOthers(rows: seq<Candidate>, i: int, j: int)
    requires 0 <= i < j < |rows| && rows[i] == rows[j]
    ensures rows[i] in Others(rows[i], rows)
  {
    assert rows == rows[..i] + [rows[i]] + rows[i + 1..];
    assert rows[j] in rows[i + 1..];
    assert multiset(rows)[rows[i]] == multiset(rows[..i])[rows[i]] + 1 + multiset(rows[i + 1..])[rows[i]];
  }

  /** Two rows i != j where i is closest and within the threshold and j is
      less than the margin behind reject as ambiguous. */
  lemma LowMarginRejects(rows: seq<Candidate>, p: Params, i: int, j: int)
    requires 0 <= i < |rows| && 0 <= j < |rows| && i != j
    requires forall c | c in rows :: rows[i].distance <= c.distance
    requires rows[i].distance <= p.maxDistance
    requires rows[j].distance - rows[i].distance < p.minMargin
    ensures Decide(rows, p).Unknown? && Decide(rows, p).reason.LowMargin?
  {
    var d := Decide(rows, p);
    if d.Accepted? {
      var b :| IsBest(b, rows) && b.distance == d.distance
        && forall c | c in Others(b, rows) :: c.distance - d.distance >= p.minMargin;
      if b != rows[j] {
        BestInOthers(b, rows[j], rows);
      } else if b != rows[i] {
        BestInOthers(b, rows[i], rows);
      } else if i < j {
        DuplicateInOthers(rows, i, j);
      } else {
        DuplicateInOthers(rows, j, i);
      }
    }
  }

  /** The tie boundary: with a non-positive minimum margin no closest row
      within the threshold is ever rejected for margin, not even a tie. */
  lemma NonPositiveMarginAcceptsWithinThreshold(rows: seq<Candidate>, p: Params, i: int)
    requires 0 <= i < |rows|
    requires forall c | c in rows :: rows[i].distance <= c.distance
    requires rows[i].distance <= p.maxDistance
    requires p.minMargin <= 0.0
    ensures Decide(rows, p).Accepted?
    ensures Decide(rows, p).distance == rows[i].distance
  {
    assert rows[i] in rows;
    assert forall b | IsBest(b, rows) :: b.distance == rows[i].distance;
    forall b, s | IsBest(b, rows) && IsRunnerUp(s, b, rows)
      ensures s.distance - b.distance >= p.minMargin
    {
      assert s in multiset(rows);
    }
  }

  // ---------------------------------------------------------------------
  // From a matched image path to a student code

  /** The code of a matched gallery image: the name of its directory. */
  function CodeOfIdentity(identityPath: string): string {
    BaseName(DirName(identityPath))
  }

  /** A gallery laid out as root/code/file yields code, whatever the root. */
  lemma CodeOfGalleryPath(root: string, code: string, file: string)
    requires |code| > 0 && NoSlash(code) && NoSlash(file)
    ensures CodeOfIdentity(root + "/" + code + "/" + file) == code
  {
    var p := root + "/" + code + "/" + file;
    assert p == (root + "/" + code) + "/" + file;
    LastSlashOfJoin(root + "/" + code, file);
    var head := p[..LastSlash(p) + 1];
    assert head == root + "/" + code + "/";
    assert head[|root| + 1] == code[0];
    assert RStripSlashes(head) == root + "/" + code by {
      assert head[..|head| - 1] == root + "/" + code;
    }
    LastSlashOfJoin(root, code);
  }
}

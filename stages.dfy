/** The stage vocabulary of backend/app/api/routes/requests.py: the four logical
    stages, their display labels, the label normalisation applied to every stored
    stage name, and the transition table. */
module Stages {
  import opened Outcomes
  import opened Text

  /** The four logical stages. The stage a client asks for is one of these (the
      request body is validated against ^(new|in_progress|repaired|scrap)$). */
  datatype Stage = New | InProgress | Repaired | Scrap

  /** The stages in the order STAGE_NAMES lists them. */
  const AllStages: seq<Stage> := [New, InProgress, Repaired, Scrap]

  /** The logical key of a stage. */
  function Key(s: Stage): string {
    match s
    case New => "new"
    case InProgress => "in_progress"
    case Repaired => "repaired"
    case Scrap => "scrap"
  }

  /** STAGE_NAMES: the label a stage row is created with. */
  function Label(s: Stage): string {
    match s
    case New => "New"
    case InProgress => "In Progress"
    case Repaired => "Repaired"
    case Scrap => "Scrap"
  }

  predicate IsKey(k: string) {
    k in {"new", "in_progress", "repaired", "scrap"}
  }

  /** The stage whose key is k, if any. */
  function ParseKey(k: string): (r: Option<Stage>)
    ensures r.Some? <==> IsKey(k)
    ensures r.Some? ==> Key(r.value) == k
  {
    if k == "new" then Some(New)
    else if k == "in_progress" then Some(InProgress)
    else if k == "repaired" then Some(Repaired)
    else if k == "scrap" then Some(Scrap)
    else None
  }

  lemma KeyRoundTrip(s: Stage)
    ensures ParseKey(Key(s)) == Some(s)
    ensures IsKey(Key(s))
  {
  }

  lemma KeyInjective(a: Stage, b: Stage)
    requires Key(a) == Key(b)
    ensures a == b
  {
  }

  lemma LabelInjective(a: Stage, b: Stage)
    requires Label(a) == Label(b)
    ensures a == b
  {
  }

  /** Every stage occurs in AllStages exactly once, at the position of its sequence order. */
  lemma AllStagesEnumerates(s: Stage)
    ensures s in AllStages
    ensures |AllStages| == 4
    ensures forall i, j :: 0 <= i < j < |AllStages| ==> AllStages[i] != AllStages[j]
  {
  }

  // ---------------------------------------------------------------------------
  // _normalize_stage_name

  /** Maps a stored stage label onto a logical key; anything unrecognised comes back
      lower-cased. */
  function NormalizeStageName(name: string): (r: string)
    ensures IsLower(r)
    ensures IsKey(r) || r == Lower(name)
  {
    var lowered := Lower(name);
    LowerIsLower(name);
    if lowered in {"new", "in progress", "in_progress", "in-progress"} then
      (if IsSubstring("progress", lowered) then "in_progress" else "new")
    else if StartsWith(lowered, "repaired") then "repaired"
    else if StartsWith(lowered, "scrap") then "scrap"
    else lowered
  }

  lemma HeadMismatch(s: string, p: string)
    requires |s| > 0 && |p| > 0 && s[0] != p[0]
    ensures !StartsWith(s, p)
  {
  }

  /** The four cases of the normalisation, each stated on the lower-cased label. */
  lemma NormalizeStageNameCases(name: string)
    ensures Lower(name) == "new" ==> NormalizeStageName(name) == "new"
    ensures Lower(name) in {"in progress", "in_progress", "in-progress"} ==>
              NormalizeStageName(name) == "in_progress"
    ensures StartsWith(Lower(name), "repaired") ==> NormalizeStageName(name) == "repaired"
    ensures StartsWith(Lower(name), "scrap") ==> NormalizeStageName(name) == "scrap"
    ensures Lower(name) !in {"new", "in progress", "in_progress", "in-progress"} &&
            !StartsWith(Lower(name), "repaired") && !StartsWith(Lower(name), "scrap") ==>
              NormalizeStageName(name) == Lower(name)
  {
    var lowered := Lower(name);
    if lowered == "new" {
      assert !IsSubstring("progress", lowered);
      HeadMismatch(lowered, "repaired");
      HeadMismatch(lowered, "scrap");
    } else if lowered in {"in progress", "in_progress", "in-progress"} {
      assert OccursAt("progress", lowered, 3);
      HeadMismatch(lowered, "repaired");
      HeadMismatch(lowered, "scrap");
    } else if StartsWith(lowered, "repaired") {
      assert lowered[..8][0] == 'r';
      HeadMismatch(lowered, "scrap");
    }
  }

  /** Normalising twice is normalising once. */
  lemma NormalizeIdempotent(name: string)
    ensures NormalizeStageName(NormalizeStageName(name)) == NormalizeStageName(name)
  {
    var r := NormalizeStageName(name);
    LowerOfLower(r);
    NormalizeStageNameCases(name);
    NormalizeStageNameCases(r);
    if !IsKey(r) {
      assert r == Lower(name);
    } else {
      assert StartsWith("repaired", "repaired");
      assert StartsWith("scrap", "scrap");
    }
  }

  lemma LowerLabel(s: Stage)
    ensures Lower(Label(s)) == if s == InProgress then "in progress" else Key(s)
    ensures Lower(Key(s)) == Key(s)
  {
    LowerOfLower(Key(s));
    match s
    case New =>
      assert Lower("New") == "new";
    case InProgress =>
      assert Lower("In Progress") == "in progress";
    case Repaired =>
      assert Lower("Repaired") == "repaired";
    case Scrap =>
      assert Lower("Scrap") == "scrap";
  }

  /** Both the label a row is created with and the logical key normalise to the key. */
  lemma NormalizeLabel(s: Stage)
    ensures NormalizeStageName(Label(s)) == Key(s)
    ensures NormalizeStageName(Key(s)) == Key(s)
  {
    LowerLabel(s);
    NormalizeStageNameCases(Key(s));
    NormalizeStageNameCases(Label(s));
    if s == Repaired {
      assert StartsWith("repaired", "repaired");
    } else if s == Scrap {
      assert StartsWith("scrap", "scrap");
    }
  }

  // ---------------------------------------------------------------------------
  // ALLOWED_TRANSITIONS

  /** The transition table as a dictionary: defined for the four keys only. */
  function TransitionTable(current: string): Option<set<Stage>> {
    if current == "new" then Some({InProgress, Scrap})
    else if current == "in_progress" then Some({Repaired, Scrap})
    else if current == "repaired" then Some({})
    else if current == "scrap" then Some({})
    else None
  }

  /** The transition check of update_stage: the target is listed for the current stage
      (a missing entry counts as the empty set), or it is scrap. */
  predicate TransitionPermitted(current: string, target: Stage) {
    (match TransitionTable(current)
     case Some(allowed) => target in allowed
     case None => false)
    || target == Scrap
  }

  /** What the check admits, stage by stage. */
  lemma TransitionRules(current: string, target: Stage)
    ensures current == "new" ==> (TransitionPermitted(current, target) <==> target in {InProgress, Scrap})
    ensures current == "in_progress" ==> (TransitionPermitted(current, target) <==> target in {Repaired, Scrap})
    ensures current !in {"new", "in_progress"} ==> (TransitionPermitted(current, target) <==> target == Scrap)
    ensures TransitionPermitted(current, Scrap)
    ensures !TransitionPermitted("new", Repaired)
  {
  }
}

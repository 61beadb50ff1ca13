/**
 * The read-only progress ladder of the application-status section: five stages, a
 * completion percentage, and a Completed / In Progress / Locked label per stage.
 */
module ApplicationStatus {

  /** A student's progress row: one flag per stage. */
  datatype ProgressStatus = ProgressStatus(
    registrationComplete: bool,
    identificationComplete: bool,
    onboardingComplete: bool,
    trainingComplete: bool,
    placementComplete: bool)

  datatype Stage = Stage(name: string, description: string, completed: bool, order: nat)

  datatype StageStatus = Completed | InProgress | Locked

  /** The flag of the stage at ladder position `i`, in ladder order. */
  function Flag(p: ProgressStatus, i: nat): bool
    requires i < 5
  {
    match i
    case 0 => p.registrationComplete
    case 1 => p.identificationComplete
    case 2 => p.onboardingComplete
    case 3 => p.trainingComplete
    case _ => p.placementComplete
  }

  /** The number of set flags. */
  function FlagCount(p: ProgressStatus): (n: nat)
    ensures n <= 5
  {
    (if p.registrationComplete then 1 else 0) + (if p.identificationComplete then 1 else 0)
    + (if p.onboardingComplete then 1 else 0) + (if p.trainingComplete then 1 else 0)
    + (if p.placementComplete then 1 else 0)
  }

  /** The literal `stages` list. */
  function Stages(p: ProgressStatus): (r: seq<Stage>)
    ensures |r| == 5
    ensures forall i :: 0 <= i < 5 ==> r[i].completed == Flag(p, i) && r[i].order == i + 1
  {
    [ Stage("Registration", "Complete your profile information", p.registrationComplete, 1),
      Stage("Identification", "Verify your identity with documents", p.identificationComplete, 2),
      Stage("Onboarding", "Get started with orientation", p.onboardingComplete, 3),
      Stage("Training", "Complete training modules", p.trainingComplete, 4),
      Stage("Placement", "Access placement opportunities", p.placementComplete, 5) ]
  }

  /** `stages.filter(s => s.completed).length`. */
  function CompletedCount(stages: seq<Stage>): (n: nat)
    ensures n <= |stages|
  {
    if stages == [] then 0
    else (if stages[0].completed then 1 else 0) + CompletedCount(stages[1..])
  }

  /** `Math.round`: the nearest integer, halves rounded up. */
  function Round(x: real): int
  {
    (x + 0.5).Floor
  }

  /** `Math.round(completed / stages.length * 100)`. */
  function CompletionPercentage(p: ProgressStatus): int
  {
    var stages := Stages(p);
    Round(CompletedCount(stages) as real / |stages| as real * 100.0)
  }

  /** The label a stage gets: its own flag first, then its predecessor's. */
  function StatusAt(stages: seq<Stage>, index: nat): StageStatus
    requires index < |stages|
  {
    if stages[index].completed then Completed
    else if index == 0 || stages[index - 1].completed then InProgress
    else Locked
  }

  // ---------------------------------------------------------------------------
  // Properties
  // ---------------------------------------------------------------------------

  /** The ladder names the five stages in order. */
  lemma StageOrder(p: ProgressStatus)
    ensures |Stages(p)| == 5
    ensures Stages(p)[0].name == "Registration" && Stages(p)[1].name == "Identification"
    ensures Stages(p)[2].name == "Onboarding" && Stages(p)[3].name == "Training"
    ensures Stages(p)[4].name == "Placement"
  {
  }

  /** Counting completed stages counts the set flags. */
  lemma CompletedCountIsFlagCount(p: ProgressStatus)
    ensures CompletedCount(Stages(p)) == FlagCount(p)
  {
    var s := Stages(p);
    var s1, s2, s3, s4 := s[1..], s[2..], s[3..], s[4..];
    assert s4[1..] == [];
    assert CompletedCount(s4) == if p.placementComplete then 1 else 0;
    assert s3[1..] == s4 && CompletedCount(s3) == (if p.trainingComplete then 1 else 0) + CompletedCount(s4);
    assert s2[1..] == s3 && CompletedCount(s2) == (if p.onboardingComplete then 1 else 0) + CompletedCount(s3);
    assert s1[1..] == s2 && CompletedCount(s1) == (if p.identificationComplete then 1 else 0) + CompletedCount(s2);
  }

  /** The percentage is exactly twenty per completed stage, so it lies in [0, 100]. */
  lemma PercentageIsTwentyPerStage(p: ProgressStatus)
    ensures CompletionPercentage(p) == 20 * FlagCount(p)
    ensures 0 <= CompletionPercentage(p) <= 100
  {
    CompletedCountIsFlagCount(p);
    var c := FlagCount(p) as real;
    assert c / 5.0 * 100.0 == 20.0 * c;
    assert (20.0 * c + 0.5).Floor == 20 * FlagCount(p);
  }

  /** Each label read off the progress record: Completed iff the stage's flag is set; an
      unset stage is In Progress iff it is the first or its predecessor is set; Locked
      otherwise. */
  lemma StatusByFlags(p: ProgressStatus, i: nat)
    requires i < 5
    ensures StatusAt(Stages(p), i) == Completed <==> Flag(p, i)
    ensures StatusAt(Stages(p), i) == InProgress <==> !Flag(p, i) && (i == 0 || Flag(p, i - 1))
    ensures StatusAt(Stages(p), i) == Locked <==> !Flag(p, i) && i > 0 && !Flag(p, i - 1)
  {
  }

  /** The first stage is never Locked. */
  lemma FirstStageNeverLocked(p: ProgressStatus)
    ensures StatusAt(Stages(p), 0) != Locked
  {
  }

  /** The ladder gates onboarding on identification: flipping the registration flag
      never changes onboarding's label, and with identification unset an unfinished
      onboarding is Locked. */
  lemma OnboardingFollowsIdentification(p: ProgressStatus)
    ensures StatusAt(Stages(p), 2) == StatusAt(Stages(p.(registrationComplete := !p.registrationComplete)), 2)
    ensures !p.identificationComplete && !p.onboardingComplete ==> StatusAt(Stages(p), 2) == Locked
  {
  }

  /** Flags set in ladder order: no stage is complete unless all stages before it are. */
  predicate InLadderOrder(p: ProgressStatus)
  {
    forall i, j :: 0 <= i < j < 5 && Flag(p, j) ==> Flag(p, i)
  }

  /** The number of stages labelled In Progress among the first `n`. */
  function InProgressCount(stages: seq<Stage>, n: nat): nat
    requires n <= |stages|
  {
    if n == 0 then 0
    else InProgressCount(stages, n - 1) + (if StatusAt(stages, n - 1) == InProgress then 1 else 0)
  }

  /** When flags are set in ladder order, exactly one stage is In Progress until the
      whole ladder is complete, and then none is. */
  lemma SingleStageInProgress(p: ProgressStatus)
    requires InLadderOrder(p)
    ensures InProgressCount(Stages(p), 5) == if FlagCount(p) == 5 then 0 else 1
  {
    var s := Stages(p);
    assert Flag(p, 1) ==> Flag(p, 0);
    assert Flag(p, 2) ==> Flag(p, 1);
    assert Flag(p, 3) ==> Flag(p, 2);
    assert Flag(p, 4) ==> Flag(p, 3);
    assert InProgressCount(s, 1) == (if StatusAt(s, 0) == InProgress then 1 else 0);
    assert InProgressCount(s, 2) == InProgressCount(s, 1) + (if StatusAt(s, 1) == InProgress then 1 else 0);
    assert InProgressCount(s, 3) == InProgressCount(s, 2) + (if StatusAt(s, 2) == InProgress then 1 else 0);
    assert InProgressCount(s, 4) == InProgressCount(s, 3) + (if StatusAt(s, 3) == InProgress then 1 else 0);
    assert InProgressCount(s, 5) == InProgressCount(s, 4) + (if StatusAt(s, 4) == InProgress then 1 else 0);
  }
}

/**
 * The student dashboard shell: which sidebar entries the progress record enables, how
 * a dashboard load merges the student's name, e-mail and progress into the page state,
 * and how a sidebar click changes the active section.
 */
module StudentLandingPage {
  import opened Text
  import opened ApplicationStatus
  import opened SidebarNav

  datatype StudentInfo = StudentInfo(firstName: string, email: string)

  /** The signed-in user as the auth service reports it. */
  datatype AuthUser = AuthUser(id: string, email: Option<string>)

  const RegistrationId := "registration"
  const ApplicationStatusId := "application-status"
  const OnboardingId := "onboarding"
  const TrainingId := "training"
  const PlacementId := "placement"

  /** All flags unset: a student who has completed nothing. */
  function NoProgress(): ProgressStatus
  {
    ProgressStatus(false, false, false, false, false)
  }

  /** The `navItems` list derived from the progress record. */
  function NavItems(p: ProgressStatus): (items: seq<NavItem>)
    ensures |items| == 5
  {
    [ NavItem(RegistrationId, "Registration", p.registrationComplete, false),
      NavItem(ApplicationStatusId, "Application Status", false, false),
      NavItem(OnboardingId, "Student Onboarding", p.onboardingComplete, !p.registrationComplete),
      NavItem(TrainingId, "Training Modules", p.trainingComplete, !p.onboardingComplete),
      NavItem(PlacementId, "Placement Support", p.placementComplete, !p.trainingComplete) ]
  }

  /** Whether the section `id` can be reached from the sidebar under progress `p`: some
      entry has that id and is enabled. */
  predicate Reachable(p: ProgressStatus, id: string)
  {
    exists k | 0 <= k < 5 :: NavItems(p)[k].id == id && !NavItems(p)[k].disabled
  }

  // ---------------------------------------------------------------------------
  // Gating properties
  // ---------------------------------------------------------------------------

  /** The sequential gate: registration and the status page are always reachable; onboarding
      exactly when registration is complete, training exactly when onboarding is, placement
      exactly when training is. Nothing else is an entry. */
  lemma {:induction false} Gating(p: ProgressStatus)
    ensures Reachable(p, RegistrationId) && Reachable(p, ApplicationStatusId)
    ensures Reachable(p, OnboardingId) <==> p.registrationComplete
    ensures Reachable(p, TrainingId) <==> p.onboardingComplete
    ensures Reachable(p, PlacementId) <==> p.trainingComplete
    ensures forall id :: id !in {RegistrationId, ApplicationStatusId, OnboardingId, TrainingId, PlacementId} ==> !Reachable(p, id)
  {
    var items := NavItems(p);
    assert items[0].id == RegistrationId && items[1].id == ApplicationStatusId;
    assert items[2].id == OnboardingId && items[3].id == TrainingId && items[4].id == PlacementId;
    assert DistinctIds(items);
  }

  /** Each entry's check mark is its own stage's flag; the status page is never marked. */
  lemma CompletedMarks(p: ProgressStatus)
    ensures NavItems(p)[0].completed == p.registrationComplete
    ensures !NavItems(p)[1].completed
    ensures NavItems(p)[2].completed == p.onboardingComplete
    ensures NavItems(p)[3].completed == p.trainingComplete
    ensures NavItems(p)[4].completed == p.placementComplete
  {
  }

  /** The identification flag affects no sidebar entry. */
  lemma IdentificationIgnored(p: ProgressStatus, b: bool)
    ensures NavItems(p.(identificationComplete := b)) == NavItems(p)
  {
  }

  /** Initially nothing is complete, so onboarding, training and placement are locked. */
  lemma InitiallyLocked()
    ensures !Reachable(NoProgress(), OnboardingId)
    ensures !Reachable(NoProgress(), TrainingId)
    ensures !Reachable(NoProgress(), PlacementId)
  {
    Gating(NoProgress());
  }

  /** The sidebar gates onboarding on registration while the status ladder gates it on
      identification: with registration done and identification not, the sidebar opens
      onboarding although the ladder shows it Locked. */
  lemma SidebarAndLadderDisagree()
    ensures var p := ProgressStatus(true, false, false, false, false);
      Reachable(p, OnboardingId) && StatusAt(Stages(p), 2) == Locked
  {
    Gating(ProgressStatus(true, false, false, false, false));
  }

  /** The entry ids are distinct, so exactly one button is highlighted whenever the active
      section is one of the five. */
  lemma SingleHighlight(p: ProgressStatus, active: string)
    requires active in {RegistrationId, ApplicationStatusId, OnboardingId, TrainingId, PlacementId}
    ensures HighlightCount(Render(NavItems(p), active)) == 1
  {
    var items := NavItems(p);
    assert DistinctIds(items);
    AtMostOneHighlighted(items, active);
    var k := if active == RegistrationId then 0 else if active == ApplicationStatusId then 1
      else if active == OnboardingId then 2 else if active == TrainingId then 3 else 4;
    assert items[k].id == active;
  }

  // ---------------------------------------------------------------------------
  // The page state
  // ---------------------------------------------------------------------------

  class StudentLandingPage {
    var activeSection: string
    var studentInfo: StudentInfo
    var progress: ProgressStatus
    var loading: bool
    var chatbotOpen: bool

    constructor ()
      ensures activeSection == RegistrationId
      ensures studentInfo == StudentInfo("Student", "")
      ensures progress == NoProgress()
      ensures loading && !chatbotOpen
    {
      activeSection := RegistrationId;
      studentInfo := StudentInfo("Student", "");
      progress := NoProgress();
      loading := true;
      chatbotOpen := false;
    }

    /** `loadStudentData` with its lookups as inputs: the signed-in user, the id of their
        student profile, the `first_name` of their registration row and their progress row
        (`None` for a missing row or an empty name). */
    method LoadStudentData(user: Option<AuthUser>, profileId: Option<string>,
                           registrationFirstName: Option<string>, progressRow: Option<ProgressStatus>)
      modifies this
      ensures !loading
      ensures activeSection == old(activeSection) && chatbotOpen == old(chatbotOpen)
      ensures user.None? || profileId.None? ==>
        studentInfo == old(studentInfo) && progress == old(progress)
      ensures user.Some? && profileId.Some? ==>
        && studentInfo.firstName == (if registrationFirstName.Some? && registrationFirstName.value != ""
                                     then registrationFirstName.value else old(studentInfo).firstName)
        && studentInfo.email == (match user.value.email case Some(e) => e case None => "")
        && progress == (if progressRow.Some? then progressRow.value else old(progress))
    {
      if user.Some? && profileId.Some? {
        if registrationFirstName.Some? && registrationFirstName.value != "" {
          studentInfo := studentInfo.(firstName := registrationFirstName.value);
        }
        var email := match user.value.email case Some(e) => e case None => "";
        studentInfo := studentInfo.(email := email);
        if progressRow.Some? {
          progress := progressRow.value;
        }
      }
      loading := false;
    }

    /** A click on sidebar entry `k`, applied by `setActiveSection`. */
    method ClickNavItem(k: nat)
      requires k < 5
      modifies this`activeSection
      ensures activeSection == AfterClick(NavItems(progress), k, old(activeSection))
      ensures activeSection != old(activeSection) ==> Reachable(progress, activeSection)
    {
      var items := NavItems(progress);
      activeSection := AfterClick(items, k, activeSection);
      Gating(progress);
      ClickGuard(items, k, old(activeSection));
    }
  }
}

/**
 * The top-level page router: a configuration page when the backend settings are
 * missing, a loading screen until the signed-in user's role is resolved, then one of
 * five pages; plus the home page's three-image carousel.
 */
module App {
  import opened Text
  import opened Tables

  datatype PageState = Home | StudentLoginPage | AdminLoginPage | StudentDashboard | AdminDashboard

  /** What the app renders. */
  datatype Screen = ConfigurationRequired | LoadingScreen | Page(page: PageState)

  const ImageCount := 3

  /** Both backend settings are present (non-empty). */
  predicate Configured(url: string, anonKey: string)
  {
    url != "" && anonKey != ""
  }

  /** The dashboard a signed-in user is sent to, given whether each of the two lookups
      answered: the student dashboard when the profile lookup finds exactly one profile,
      else the admin dashboard when the admin lookup finds exactly one admin row, else none.
      Profile and admin rows are keyed by `user_id`; a failed lookup finds nothing. */
  function Role(user: Option<string>, profiles: seq<Row<()>>, admins: seq<Row<()>>,
                profileOk: bool, adminOk: bool): (r: Option<PageState>)
    ensures r.None? <==>
      user.None? || (!(profileOk && CountFor(profiles, user.value) == 1) &&
                     !(adminOk && CountFor(admins, user.value) == 1))
    ensures r == Some(StudentDashboard) <==> user.Some? && profileOk && CountFor(profiles, user.value) == 1
    ensures r == Some(AdminDashboard) <==>
      user.Some? && !(profileOk && CountFor(profiles, user.value) == 1) && adminOk && CountFor(admins, user.value) == 1
  {
    match user
    case None => None
    case Some(uid) =>
      if Lookup(profiles, uid, profileOk).Some? then Some(StudentDashboard)
      else if Lookup(admins, uid, adminOk).Some? then Some(AdminDashboard)
      else None
  }

  /** A user who is both a student and an admin is sent to the student dashboard when the
      profile lookup answers: the admin table is not consulted once a profile is found. */
  lemma StudentPrecedence(uid: string, profiles: seq<Row<()>>, admins: seq<Row<()>>, admins': seq<Row<()>>,
                          adminOk: bool, adminOk': bool)
    requires CountFor(profiles, uid) == 1
    ensures Role(Some(uid), profiles, admins, true, adminOk) == Role(Some(uid), profiles, admins', true, adminOk')
            == Some(StudentDashboard)
  {
  }

  /** The lookups' errors are not looked at: when the profile lookup fails, a student who is
      also an admin is sent to the admin dashboard. */
  lemma FailedProfileLookupOpensAdmin(uid: string, profiles: seq<Row<()>>, admins: seq<Row<()>>)
    requires CountFor(profiles, uid) == 1 && CountFor(admins, uid) == 1
    ensures Role(Some(uid), profiles, admins, true, true) == Some(StudentDashboard)
    ensures Role(Some(uid), profiles, admins, false, true) == Some(AdminDashboard)
  {
  }

  /** A second profile row, such as a sign-in whose lookup failed inserts, keeps the user off
      the student dashboard from then on: `maybeSingle` finds no single profile. */
  lemma DuplicateProfileLocksOutStudent(profiles: seq<Row<()>>, admins: seq<Row<()>>, row: Row<()>, adminOk: bool)
    requires CountFor(profiles, row.studentId) == 1
    ensures Role(Some(row.studentId), profiles, admins, true, adminOk) == Some(StudentDashboard)
    ensures Role(Some(row.studentId), profiles + [row], admins, true, adminOk) != Some(StudentDashboard)
  {
    InsertBesideSingle(profiles, row);
  }

  class App {
    /** The `student_profiles` table. */
    const profiles: Table<()>
    /** The `admin_users` table. */
    const admins: Table<()>
    const url: string
    const anonKey: string
    var currentPage: PageState
    var loading: bool
    var currentImageIndex: nat

    ghost predicate Valid()
      reads this
    {
      currentImageIndex < ImageCount
    }

    constructor (profiles: Table<()>, admins: Table<()>, url: string, anonKey: string)
      ensures this.profiles == profiles && this.admins == admins && this.url == url && this.anonKey == anonKey
      ensures Valid() && currentPage == Home && loading && currentImageIndex == 0
    {
      this.profiles := profiles;
      this.admins := admins;
      this.url := url;
      this.anonKey := anonKey;
      currentPage := Home;
      loading := true;
      currentImageIndex := 0;
    }

    /** The screen shown: the configuration page whenever a setting is missing, whatever
        the state; otherwise the loading screen until the role is resolved. */
    function Rendered(): (s: Screen)
      reads this
      ensures !Configured(url, anonKey) <==> s == ConfigurationRequired
      ensures Configured(url, anonKey) && loading <==> s == LoadingScreen
      ensures s.Page? ==> s.page == currentPage
    {
      if !Configured(url, anonKey) then ConfigurationRequired
      else if loading then LoadingScreen
      else Page(currentPage)
    }

    /** `checkAuthState` with the signed-in user (if any), whether a lookup threw, and whether
        each lookup answered as inputs: the page moves to the user's dashboard when there is
        one, stays otherwise, and loading ends on every path. */
    method CheckAuthState(user: Option<string>, threw: bool, profileOk: bool, adminOk: bool)
      modifies this`currentPage, this`loading
      ensures !loading
      ensures var role := Role(user, profiles.rows, admins.rows, profileOk, adminOk);
        currentPage == (if !threw && role.Some? then role.value else old(currentPage))
    {
      if !threw && user.Some? {
        var profile := Lookup(profiles.rows, user.value, profileOk);
        if profile.Some? {
          currentPage := StudentDashboard;
          loading := false;
          return;
        }
        var admin := Lookup(admins.rows, user.value, adminOk);
        if admin.Some? {
          currentPage := AdminDashboard;
          loading := false;
          return;
        }
      }
      loading := false;
    }

    /** `handleLogout`: the sign-out's answer is not looked at. */
    method HandleLogout()
      modifies this`currentPage
      ensures currentPage == Home
    {
      currentPage := Home;
    }

    /** The home page's login cards. */
    method OpenLogin(student: bool)
      modifies this`currentPage
      ensures currentPage == if student then StudentLoginPage else AdminLoginPage
    {
      currentPage := if student then StudentLoginPage else AdminLoginPage;
    }

    /** A login page's `onGoBack`. */
    method GoBack()
      modifies this`currentPage
      ensures currentPage == Home
    {
      currentPage := Home;
    }

    /** A login page's `onLoginSuccess`: each login page opens its own dashboard. */
    method LoginSuccess()
      requires currentPage == StudentLoginPage || currentPage == AdminLoginPage
      modifies this`currentPage
      ensures currentPage == if old(currentPage) == StudentLoginPage then StudentDashboard else AdminDashboard
    {
      currentPage := if currentPage == StudentLoginPage then StudentDashboard else AdminDashboard;
    }

    /** The carousel timer fires: the next image, wrapping after the last. */
    method Tick()
      requires Valid()
      modifies this`currentImageIndex
      ensures Valid()
      ensures currentImageIndex == (old(currentImageIndex) + 1) % ImageCount
      ensures currentImageIndex == if old(currentImageIndex) == ImageCount - 1 then 0 else old(currentImageIndex) + 1
    {
      currentImageIndex := (currentImageIndex + 1) % ImageCount;
    }
  }

  /** After `k` ticks from the first image the carousel shows image `k mod 3`. */
  function ImageAfter(k: nat): (i: nat)
    ensures i < ImageCount
  {
    if k == 0 then 0 else (ImageAfter(k - 1) + 1) % ImageCount
  }

  lemma {:induction false} ImageAfterIsModulo(k: nat)
    ensures ImageAfter(k) == k % ImageCount
  {
    if k > 0 {
      ImageAfterIsModulo(k - 1);
    }
  }
}

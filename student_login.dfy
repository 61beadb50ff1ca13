/**
 * The student sign-in card. Sign-up creates the account, then the student's profile row,
 * then their progress row, stopping at the first error. Sign-in finds the student's
 * profile and, when there is none, creates the profile and progress rows.
 */
module StudentLogin {
  import opened Text
  import opened Tables

  /** What the auth service answers: an error with its message, success without a user,
      or the signed-in user's id. */
  datatype AuthResult = Failed(errorMessage: string) | NoUser | User(id: string)

  const SignedUpMessage := "Account created successfully! Please check your email to confirm."
  const FallbackMessage := "An error occurred. Please try again."

  /** `error.message || fallback`: an empty message is replaced by the fixed text. */
  function ErrorText(m: string): (t: string)
    ensures t != ""
    ensures m != "" ==> t == m
  {
    if m == "" then FallbackMessage else m
  }

  /** `after` is `before` with one row for `key` appended. Rows of `student_profiles` are
      keyed by `user_id` and rows of `student_progress` by `student_id`; both carry only
      that key, the other columns taking the backend's defaults. */
  ghost predicate Appended(before: seq<Row<()>>, after: seq<Row<()>>, key: string)
  {
    |after| == |before| + 1 && after[..|before|] == before && after[|before|].studentId == key
  }

  /** Every progress row belongs to a user who has a profile row. */
  ghost predicate Paired(profiles: seq<Row<()>>, progress: seq<Row<()>>)
  {
    forall i :: 0 <= i < |progress| ==> CountFor(profiles, progress[i].studentId) > 0
  }

  /** Appending a profile row, and then a progress row for the same user, keeps every
      progress row paired. */
  lemma PairedAfterBoth(profiles: seq<Row<()>>, progress: seq<Row<()>>,
                        profiles': seq<Row<()>>, progress': seq<Row<()>>, key: string)
    requires Paired(profiles, progress)
    requires Appended(profiles, profiles', key)
    requires Appended(progress, progress', key) || progress' == progress
    ensures Paired(profiles', progress')
  {
    assert profiles' == profiles + [profiles'[|profiles|]];
    forall i | 0 <= i < |progress'|
      ensures CountFor(profiles', progress'[i].studentId) > 0
    {
      InsertCount(profiles, profiles'[|profiles|], progress'[i].studentId);
      if i < |progress| {
        assert progress'[i] == progress[i];
      }
    }
  }

  /** A progress row appended without a profile row for a user who has none breaks the
      pairing: what a sign-in does when its profile insert fails and its progress insert
      does not. */
  lemma UnpairedProgress(profiles: seq<Row<()>>, progress: seq<Row<()>>, progress': seq<Row<()>>, key: string)
    requires CountFor(profiles, key) == 0
    requires Appended(progress, progress', key)
    ensures !Paired(profiles, progress')
  {
    assert progress'[|progress|].studentId == key;
  }

  class StudentLoginForm {
    /** The `student_profiles` table. */
    const profiles: Table<()>
    /** The `student_progress` table. */
    const progress: Table<()>
    var email: string
    var password: string
    var loading: bool
    var message: string
    var isSignUp: bool
    /** How many times the parent's `onLoginSuccess` has been called. */
    var loginSuccesses: nat

    constructor (profiles: Table<()>, progress: Table<()>)
      requires profiles != progress
      ensures this.profiles == profiles && this.progress == progress
      ensures email == "" && password == "" && !loading && message == "" && !isSignUp && loginSuccesses == 0
    {
      this.profiles := profiles;
      this.progress := progress;
      email := "";
      password := "";
      loading := false;
      message := "";
      isSignUp := false;
      loginSuccesses := 0;
    }

    /** `handleSubmit` with the backend's answers as inputs: the auth result, the errors of
        the sign-up inserts, whether the sign-in's profile lookup answered, and whether the
        sign-in inserts went through. */
    method HandleSubmit(auth: AuthResult, profileError: Option<string>, progressError: Option<string>,
                        lookupOk: bool, profileOk: bool, progressOk: bool)
      requires profiles.Valid() && progress.Valid() && profiles != progress
      modifies this`loading, this`message, this`email, this`password, this`loginSuccesses, profiles, progress
      ensures profiles.Valid() && progress.Valid() && !loading
      ensures isSignUp ==> SignedUp(auth, profileError, progressError, old(profiles.rows), old(progress.rows),
                                    old(email), old(password)) && loginSuccesses == old(loginSuccesses)
      ensures !isSignUp ==> SignedIn(auth, lookupOk, profileOk, progressOk, old(profiles.rows), old(progress.rows),
                                     old(email), old(password), old(loginSuccesses))
      ensures Paired(old(profiles.rows), old(progress.rows)) && (isSignUp || profileOk || !progressOk) ==>
        Paired(profiles.rows, progress.rows)
    {
      loading := true;
      message := "";
      if isSignUp {
        SignUp(auth, profileError, progressError);
      } else {
        SignIn(auth, lookupOk, profileOk, progressOk);
      }
      loading := false;
    }

    /** The sign-up branch's outcome. An auth error, then a profile insert error, then a
        progress insert error each end the branch with that error's text, and a later step
        is not taken; full success clears the credentials. */
    ghost predicate SignedUp(auth: AuthResult, profileError: Option<string>, progressError: Option<string>,
                             profiles0: seq<Row<()>>, progress0: seq<Row<()>>, email0: string, password0: string)
      reads this, profiles, progress
    {
      match auth
      case Failed(m) =>
        message == ErrorText(m) && profiles.rows == profiles0 && progress.rows == progress0
        && email == email0 && password == password0
      case NoUser =>
        message == "" && profiles.rows == profiles0 && progress.rows == progress0
        && email == email0 && password == password0
      case User(uid) =>
        && (if profileError.Some? then profiles.rows == profiles0 else Appended(profiles0, profiles.rows, uid))
        && (if profileError.None? && progressError.None? then Appended(progress0, progress.rows, uid)
            else progress.rows == progress0)
        && message == (if profileError.Some? then ErrorText(profileError.value)
                       else if progressError.Some? then ErrorText(progressError.value)
                       else SignedUpMessage)
        && (if profileError.None? && progressError.None? then email == "" && password == ""
            else email == email0 && password == password0)
    }

    method SignUp(auth: AuthResult, profileError: Option<string>, progressError: Option<string>)
      requires profiles.Valid() && progress.Valid() && profiles != progress && message == ""
      modifies this`message, this`email, this`password, profiles, progress
      ensures profiles.Valid() && progress.Valid()
      ensures SignedUp(auth, profileError, progressError, old(profiles.rows), old(progress.rows), old(email), old(password))
      ensures Paired(old(profiles.rows), old(progress.rows)) ==> Paired(profiles.rows, progress.rows)
    {
      ghost var profiles0, progress0 := profiles.rows, progress.rows;
      match auth {
        case Failed(m) =>
          message := ErrorText(m);
        case NoUser =>
        case User(uid) =>
          if profileError.Some? {
            message := ErrorText(profileError.value);
            return;
          }
          var _ := profiles.Insert(uid, ());
          assert profiles.rows[..|profiles0|] == profiles0;
          if progressError.Some? {
            message := ErrorText(progressError.value);
          } else {
            var _ := progress.Insert(uid, ());
            assert progress.rows[..|progress0|] == progress0;
            message := SignedUpMessage;
            email := "";
            password := "";
          }
          if Paired(profiles0, progress0) {
            PairedAfterBoth(profiles0, progress0, profiles.rows, progress.rows, uid);
          }
      }
    }

    /** The sign-in branch's outcome. A signed-in user whose lookup finds exactly one
        profile row is let through with no insert; otherwise (no row, several rows, or a
        failed lookup) a profile row and a progress row are inserted, their answers not
        looked at, and the user is let through. */
    ghost predicate SignedIn(auth: AuthResult, lookupOk: bool, profileOk: bool, progressOk: bool,
                             profiles0: seq<Row<()>>, progress0: seq<Row<()>>,
                             email0: string, password0: string, successes0: nat)
      reads this, profiles, progress
    {
      && email == email0 && password == password0
      && match auth
        case Failed(m) =>
          message == ErrorText(m) && profiles.rows == profiles0 && progress.rows == progress0
          && loginSuccesses == successes0
        case NoUser =>
          message == "" && profiles.rows == profiles0 && progress.rows == progress0
          && loginSuccesses == successes0
        case User(uid) =>
          && message == "" && loginSuccesses == successes0 + 1
          && (Lookup(profiles0, uid, lookupOk).Some? ==> profiles.rows == profiles0 && progress.rows == progress0)
          && (Lookup(profiles0, uid, lookupOk).None? ==>
                && (if profileOk then Appended(profiles0, profiles.rows, uid) else profiles.rows == profiles0)
                && (if progressOk then Appended(progress0, progress.rows, uid) else progress.rows == progress0))
          && var n := CountFor(profiles0, uid);
             CountFor(profiles.rows, uid) == n + (if (n != 1 || !lookupOk) && profileOk then 1 else 0)
    }

    method SignIn(auth: AuthResult, lookupOk: bool, profileOk: bool, progressOk: bool)
      requires profiles.Valid() && progress.Valid() && profiles != progress && message == ""
      modifies this`loginSuccesses, this`message, profiles, progress
      ensures profiles.Valid() && progress.Valid()
      ensures SignedIn(auth, lookupOk, profileOk, progressOk, old(profiles.rows), old(progress.rows),
                       email, password, old(loginSuccesses))
      ensures Paired(old(profiles.rows), old(progress.rows)) && (profileOk || !progressOk) ==>
        Paired(profiles.rows, progress.rows)
    {
      ghost var profiles0, progress0 := profiles.rows, progress.rows;
      match auth {
        case Failed(m) =>
          message := ErrorText(m);
        case NoUser =>
        case User(uid) =>
          var profile := Lookup(profiles.rows, uid, lookupOk);
          if profile.None? {
            if profileOk {
              var id := profiles.Insert(uid, ());
              assert profiles.rows[..|profiles0|] == profiles0;
              InsertCount(profiles0, Row(id, uid, ()), uid);
            }
            if progressOk {
              var _ := progress.Insert(uid, ());
              assert progress.rows[..|progress0|] == progress0;
            }
            if Paired(profiles0, progress0) && profileOk {
              PairedAfterBoth(profiles0, progress0, profiles.rows, progress.rows, uid);
            }
          }
          loginSuccesses := loginSuccesses + 1;
      }
    }

    method ToggleMode()
      modifies this`isSignUp
      ensures isSignUp == !old(isSignUp)
    {
      isSignUp := !isSignUp;
    }
  }
}

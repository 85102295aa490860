/** The portal's route handlers as transitions on its state: the browser
    session, the tables of the database and the system configuration. The
    clock, the client address, the form fields, the digest algorithm and the
    random salt reach a handler as parameters. */
module Portal {

  import opened Wrappers
  import opened Tables
  import opened Validators
  import opened Store

  datatype LoginOutcome = LoggedIn | Maintenance | InvalidCredentials

  /** Which branch of a handler ran. `Forbidden` and `SubmissionsClosed`
      redirect without a change, and so does `Unauthenticated` in `dashboard`.
      `NoConfigRow`, and `Unauthenticated` in `submit` and `notifications`,
      stand for a request that fails with a server error before it changes
      anything. */
  datatype Status =
    | Done
    | Forbidden          // the role check failed
    | SubmissionsClosed  // the submission gate reads 'FALSE'
    | Unauthenticated    // no session: a redirect, or a failed `session['user_id']` lookup
    | NoConfigRow        // the `AllowUploads` row is missing, so `fetchone()[0]` fails on None

  /** A page rendered from a query, or the reason it was not. */
  datatype Reply<T> = Page(value: T) | Refused(status: Status)

  /** What `dashboard` hands to its template. */
  datatype DashboardView = DashboardView(
    uploadsAllowed: string,
    projects: seq<ProjectRow>,
    auditLogs: seq<AuditRecord>,
    milestones: map<int, seq<MilestoneView>>)

  /** The `LOGIN_SUCCESS` audit record of a login. */
  function LoginRecord(username: string, ip: string, now: int): AuditRecord {
    AuditRecord("LOGIN_SUCCESS", ip, "User " + username + " logged in", now)
  }

  /** The credential check of `login`: the user exists and hashing the given
      password with the stored salt reproduces the stored hash. */
  predicate CredentialsMatch(users: seq<User>, username: string, password: string,
                             digest: string -> string, freshSalt: string): (ok: bool)
    ensures (forall u :: u in users ==> u.username != username) ==> !ok
  {
    var u := LookupUser(users, username);
    u.Some? && HashPassword(digest, password, Some(u.value.salt), freshSalt).0 == u.value.hash
  }

  /** With a non-empty stored salt the check is `digest(password + salt) == hash`,
      whatever fresh salt the call draws. */
  lemma CredentialsMatchStoredSalt(users: seq<User>, username: string, password: string,
                                   digest: string -> string, freshSalt: string)
    requires LookupUser(users, username).Some? && LookupUser(users, username).value.salt != ""
    ensures var u := LookupUser(users, username).value;
      CredentialsMatch(users, username, password, digest, freshSalt) <==> digest(password + u.salt) == u.hash
  {
  }

  /** An empty stored salt is falsy, so `hash_password` draws a fresh one and
      the check compares against a hash of the password with that fresh salt. */
  lemma CredentialsMatchEmptySalt(users: seq<User>, username: string, password: string,
                                  digest: string -> string, freshSalt: string)
    requires LookupUser(users, username).Some? && LookupUser(users, username).value.salt == ""
    ensures var u := LookupUser(users, username).value;
      CredentialsMatch(users, username, password, digest, freshSalt) <==> digest(password + freshSalt) == u.hash
  {
  }

  /** A user whose hash and salt were produced by `hash_password` from a
      password, with a non-empty fresh salt, passes the check with that password. */
  lemma RegisteredPasswordMatches(users: seq<User>, username: string, password: string,
                                  digest: string -> string, registrationSalt: string, loginSalt: string)
    requires registrationSalt != ""
    requires LookupUser(users, username).Some?
    requires var u := LookupUser(users, username).value;
      (u.hash, u.salt) == HashPassword(digest, password, None, registrationSalt)
    ensures CredentialsMatch(users, username, password, digest, loginSalt)
  {
    HashRoundTrip(digest, password, registrationSalt, loginSalt);
  }

  class Portal {
    var session: Option<Session>
    var users: seq<User>
    var assignments: seq<Assignment>
    var milestones: seq<Milestone>
    var notifications: seq<Notification>
    var auditLog: seq<AuditRecord>
    var config: map<string, string>
    /** The identity values the store gives the next inserted assignment and milestone. */
    var nextAssignmentId: int
    var nextMilestoneId: int

    /** The primary keys are unique and below the next identity value. */
    ghost predicate Valid()
      reads this
    {
      && DistinctKeys(assignments, AssignmentId)
      && (forall i :: 0 <= i < |assignments| ==> assignments[i].id < nextAssignmentId)
      && DistinctKeys(milestones, MilestoneId)
      && (forall i :: 0 <= i < |milestones| ==> milestones[i].id < nextMilestoneId)
    }

    /** A database holding users, notifications and configuration, and no
        submissions, milestones or audit records yet; nobody is logged in. */
    constructor (users: seq<User>, notifications: seq<Notification>, config: map<string, string>)
      ensures Valid()
      ensures session == None && this.users == users && this.notifications == notifications
      ensures this.config == config
      ensures assignments == [] && milestones == [] && auditLog == []
    {
      session := None;
      this.users := users;
      assignments := [];
      milestones := [];
      this.notifications := notifications;
      auditLog := [];
      this.config := config;
      nextAssignmentId := 1;
      nextMilestoneId := 1;
    }

    /** `login` on POST. Outside the maintenance window the user is looked up
        and the password hashed with the stored salt; only a matching hash sets
        the session and appends one `LOGIN_SUCCESS` record. */
    method Login(username: string, password: string, hour: Hour, ip: string, now: int,
                 digest: string -> string, freshSalt: string) returns (outcome: LoginOutcome)
      modifies this`session, this`auditLog
      ensures outcome ==
        if !IsLoginAllowed(hour) then Maintenance
        else if CredentialsMatch(users, username, password, digest, freshSalt) then LoggedIn
        else InvalidCredentials
      ensures outcome == LoggedIn ==>
        var u := LookupUser(users, username).value;
        && session == Some(Session(u.id, u.role, username))
        && auditLog == old(auditLog) + [LoginRecord(username, ip, now)]
      ensures outcome != LoggedIn ==> session == old(session) && auditLog == old(auditLog)
    {
      if !IsLoginAllowed(hour) {
        return Maintenance;
      }
      var user := LookupUser(users, username);
      if user.Some? {
        var calculated := HashPassword(digest, password, Some(user.value.salt), freshSalt).0;
        if calculated == user.value.hash {
          session := Some(Session(user.value.id, user.value.role, username));
          auditLog := auditLog + [LoginRecord(username, ip, now)];
          return LoggedIn;
        }
      }
      return InvalidCredentials;
    }

    /** `dashboard`: a student sees exactly their own submissions, every other
        role the submissions joined with their submitter's name; only an
        administrator gets the 15 newest audit records; every listed
        submission gets its milestones. */
    method Dashboard() returns (reply: Reply<DashboardView>)
      ensures session.None? ==> reply == Refused(Unauthenticated)
      ensures session.Some? && AllowUploadsKey !in config ==> reply == Refused(NoConfigRow)
      ensures session.Some? && AllowUploadsKey in config ==>
        && reply.Page?
        && reply.value.uploadsAllowed == config[AllowUploadsKey]
        && reply.value.projects ==
             (if session.value.role == Student then Unjoined(OwnRows(assignments, session.value.userId))
              else JoinSubmitters(assignments, users))
        && reply.value.auditLogs == (if session.value.role == Admin then AuditPage(auditLog) else [])
        && ListsMilestonesOf(reply.value.milestones, reply.value.projects)
    {
      if session.None? {
        return Refused(Unauthenticated);
      }
      if AllowUploadsKey !in config {
        return Refused(NoConfigRow);
      }
      var uploadsAllowed := config[AllowUploadsKey];
      var s := session.value;
      var projects := if s.role == Student then Unjoined(OwnRows(assignments, s.userId))
                      else JoinSubmitters(assignments, users);
      var auditLogs := if s.role == Admin then AuditPage(auditLog) else [];
      var byProject := MilestonesByProject(projects);
      return Page(DashboardView(uploadsAllowed, projects, auditLogs, byProject));
    }

    /** The milestone map covers exactly the listed submissions and holds, for
        each, the milestones of that assignment. */
    ghost predicate ListsMilestonesOf(m: map<int, seq<MilestoneView>>, projects: seq<ProjectRow>)
      reads this
    {
      && (forall k :: 0 <= k < |projects| ==> projects[k].assignment.id in m)
      && (forall pid :: pid in m ==> exists k :: 0 <= k < |projects| && projects[k].assignment.id == pid)
      && (forall pid :: pid in m ==> m[pid] == MilestonesOf(milestones, pid))
    }

    /** The loop of `dashboard` that fills `milestones[pid]` for each listed submission. */
    method MilestonesByProject(projects: seq<ProjectRow>) returns (m: map<int, seq<MilestoneView>>)
      ensures ListsMilestonesOf(m, projects)
    {
      m := map[];
      var i := 0;
      while i < |projects|
        invariant 0 <= i <= |projects|
        invariant forall k :: 0 <= k < i ==> projects[k].assignment.id in m
        invariant forall pid :: pid in m ==> exists k :: 0 <= k < i && projects[k].assignment.id == pid
        invariant forall pid :: pid in m ==> m[pid] == MilestonesOf(milestones, pid)
      {
        var pid := projects[i].assignment.id;
        m := m[pid := MilestonesOf(milestones, pid)];
        i := i + 1;
      }
    }

    /** `submit`: nothing is inserted while the gate reads 'FALSE'; otherwise
        one submission owned by the session's user is appended. */
    method Submit(title: string, desc: string, link: string) returns (status: Status)
      requires Valid()
      modifies this`assignments, this`nextAssignmentId
      ensures Valid()
      ensures status ==
        if AllowUploadsKey !in config then NoConfigRow
        else if !UploadsOpen(config[AllowUploadsKey]) then SubmissionsClosed
        else if session.None? then Unauthenticated
        else Done
      ensures status == Done ==>
        && assignments == old(assignments) + [Assignment(old(nextAssignmentId), title, desc, link, session.value.userId)]
        && nextAssignmentId == old(nextAssignmentId) + 1
      ensures status != Done ==> assignments == old(assignments) && nextAssignmentId == old(nextAssignmentId)
    {
      if AllowUploadsKey !in config {
        return NoConfigRow;
      }
      if !UploadsOpen(config[AllowUploadsKey]) {
        return SubmissionsClosed;
      }
      if session.None? {
        return Unauthenticated;
      }
      assignments := assignments + [Assignment(nextAssignmentId, title, desc, link, session.value.userId)];
      nextAssignmentId := nextAssignmentId + 1;
      return Done;
    }

    /** `delete_project`: an administrator or reviewer removes the submissions
        with that id; nobody else changes anything. No audit record is written. */
    method DeleteProject(id: int) returns (status: Status)
      requires Valid()
      modifies this`assignments
      ensures Valid()
      ensures status == if session.Some? && session.value.role in {Admin, Reviewer} then Done else Forbidden
      ensures status == Done ==> assignments == RemoveAssignment(old(assignments), id)
      ensures status == Forbidden ==> assignments == old(assignments)
    {
      if session.Some? && session.value.role in {Admin, Reviewer} {
        assignments := RemoveAssignment(assignments, id);
        return Done;
      }
      return Forbidden;
    }

    /** `toggle_security`: an administrator flips the `AllowUploads` row, if it
        exists; for anyone else the configuration stays as it is. */
    method ToggleSecurity() returns (status: Status)
      modifies this`config
      ensures status == if session.Some? && session.value.role == Admin then Done else Forbidden
      ensures status == Done && AllowUploadsKey in old(config) ==>
        config == old(config)[AllowUploadsKey := ToggledValue(old(config)[AllowUploadsKey])]
      ensures status == Forbidden || AllowUploadsKey !in old(config) ==> config == old(config)
    {
      if session.Some? && session.value.role == Admin {
        if AllowUploadsKey in config {
          config := config[AllowUploadsKey := ToggledValue(config[AllowUploadsKey])];
        }
        return Done;
      }
      return Forbidden;
    }

    /** `add_milestone`: appends a milestone, not yet completed, to whatever
        assignment id the form names; neither the session nor ownership is checked. */
    method AddMilestone(assignId: int, task: string)
      requires Valid()
      modifies this`milestones, this`nextMilestoneId
      ensures Valid()
      ensures milestones == old(milestones) + [Milestone(old(nextMilestoneId), assignId, task, 0)]
      ensures nextMilestoneId == old(nextMilestoneId) + 1
    {
      milestones := milestones + [Milestone(nextMilestoneId, assignId, task, 0)];
      nextMilestoneId := nextMilestoneId + 1;
    }

    /** `toggle_milestone`: flips the completion of the milestone with that id,
        whoever asks; no other row and no other column changes. */
    method ToggleMilestone(mid: int)
      requires Valid()
      modifies this`milestones
      ensures Valid()
      ensures milestones == ToggleCompleted(old(milestones), mid)
    {
      milestones := ToggleCompleted(milestones, mid);
    }

    /** `notifications`: lists the session user's notifications newest first,
        as they were before the call, then marks all of them read. */
    method Notifications() returns (reply: Reply<seq<InboxEntry>>)
      modifies this`notifications
      ensures session.None? ==> reply == Refused(Unauthenticated) && notifications == old(notifications)
      ensures session.Some? ==>
        && reply == Page(Inbox(old(notifications), session.value.userId))
        && notifications == MarkRead(old(notifications), session.value.userId)
    {
      if session.None? {
        return Refused(Unauthenticated);
      }
      var uid := session.value.userId;
      var data := Inbox(notifications, uid);
      notifications := MarkRead(notifications, uid);
      return Page(data);
    }

    /** `logout`: the whole session is cleared at once. */
    method Logout()
      modifies this`session
      ensures session == None
    {
      session := None;
    }
  }
}

/**
 * Who has unsubscribed from a kind of email: the check for one user, and the batch form that
 * answers for a whole list with three queries.
 */
module Unsubscribe {
  import opened Outcomes
  import Text

  datatype Preference =
    | PolicyNotifications
    | TaskReminders
    | WeeklyTaskDigest
    | UnassignedItemsNotifications
    | TaskMentions
    | TaskAssignments
    | FindingNotifications

  datatype RoleRecord = RoleRecord(
    policyNotifications: bool,
    taskReminders: bool,
    taskAssignments: bool,
    taskMentions: bool,
    weeklyTaskDigest: bool,
    findingNotifications: bool)

  /** Unassigned items have no setting per role. */
  predicate HasRoleSetting(p: Preference) {
    !p.UnassignedItemsNotifications?
  }

  predicate Enabled(r: RoleRecord, p: Preference)
    requires HasRoleSetting(p)
  {
    match p
    case PolicyNotifications => r.policyNotifications
    case TaskReminders => r.taskReminders
    case WeeklyTaskDigest => r.weeklyTaskDigest
    case TaskMentions => r.taskMentions
    case TaskAssignments => r.taskAssignments
    case FindingNotifications => r.findingNotifications
  }

  const PORTAL_ONLY_DEFAULTS: RoleRecord := RoleRecord(true, false, false, false, false, false)

  predicate IsPortalOnly(role: string) {
    role == "employee" || role == "contractor"
  }

  /** A stored preference value; only the boolean `false` is an opt-out. */
  datatype Stored = Flag(on: bool) | OtherValue

  /** The preferences column: an object, or anything else. */
  datatype Preferences = NotAnObject | Object(values: map<Preference, Stored>)

  datatype User = User(email: string, unsubscribed: bool, preferences: Preferences, role: Option<string>)

  datatype Member = Member(organizationId: string, email: string, role: string, deactivated: bool)

  datatype Setting = Setting(organizationId: string, role: string, record: RoleRecord)

  datatype Db = Db(users: seq<User>, members: seq<Member>, settings: seq<Setting>)

  /** The unique keys of the database: an email names one user, a role has one setting per organization. */
  ghost predicate HasUniqueKeys(db: Db) {
    && (forall u, w | u in db.users && w in db.users && u.email == w.email :: u == w)
    && (forall s, t | s in db.settings && t in db.settings && s.organizationId == t.organizationId && s.role == t.role :: s == t)
  }

  /** The roles in a comma-separated list, trimmed; there is always at least one. */
  function RolesIn(list: string): (roles: seq<string>)
    ensures roles != []
  {
    var parts := Text.Split(list, ',');
    seq(|parts|, i requires 0 <= i < |parts| => Text.Trim(parts[i]))
  }

  /** A list of names that hold no comma themselves reads as exactly these names, trimmed. */
  lemma RolesInList(names: seq<string>)
    requires names != [] && forall name | name in names :: ',' !in name
    ensures var roles := RolesIn(Text.Join(names, ','));
      |roles| == |names| && forall i | 0 <= i < |names| :: roles[i] == Text.Trim(names[i])
  {
    Text.SplitUndoesJoin(names, ',');
  }

  predicate IsAdminOrOff(u: User) {
    u.role == Some("admin") || u.unsubscribed
  }

  /** Defaults are all on, so only a stored `false` opts out. */
  predicate OptedOut(preferences: Preferences, p: Preference) {
    var stored := if preferences.Object? && p in preferences.values then preferences.values[p] else Flag(true);
    stored == Flag(false)
  }

  // ---------------------------------------------------------------- the check for one user

  predicate IsActiveMember(m: Member, organizationId: string, email: string) {
    m.organizationId == organizationId && m.email == email && !m.deactivated
  }

  function FindUser(users: seq<User>, email: string): Option<User> {
    if users == [] then None
    else if users[0].email == email then Some(users[0])
    else FindUser(users[1..], email)
  }

  /** The roles of a user in an organization, over all active memberships. */
  function UserRoles(members: seq<Member>, organizationId: string, email: string): seq<string> {
    if members == [] then []
    else (if IsActiveMember(members[0], organizationId, email) then RolesIn(members[0].role) else [])
         + UserRoles(members[1..], organizationId, email)
  }

  function RoleSettings(settings: seq<Setting>, organizationId: string, roles: seq<string>): seq<Setting> {
    if settings == [] then []
    else (if settings[0].organizationId == organizationId && settings[0].role in roles then [settings[0]] else [])
         + RoleSettings(settings[1..], organizationId, roles)
  }

  /** Do the user's roles switch the notification off, whatever the user prefers? */
  predicate RolesSayOff(db: Db, organizationId: string, email: string, p: Preference) {
    var roles := UserRoles(db.members, organizationId, email);
    HasRoleSetting(p) && roles != [] &&
    var settings := RoleSettings(db.settings, organizationId, roles);
    if settings != [] then forall s | s in settings :: !Enabled(s.record, p)
    else (forall r | r in roles :: IsPortalOnly(r)) && !Enabled(PORTAL_ONLY_DEFAULTS, p)
  }

  predicate IsUserUnsubscribed(db: Db, email: string, preference: Option<Preference>, organizationId: Option<string>) {
    match FindUser(db.users, email)
    case None => false
    case Some(u) =>
      IsAdminOrOff(u) ||
      (preference.Some? &&
        ((organizationId.Some? && organizationId.value != "" && RolesSayOff(db, organizationId.value, email, preference.value))
         || OptedOut(u.preferences, preference.value)))
  }

  // ---------------------------------------------------------------- the three queries, in any row order

  method FindUsers(db: Db, emails: seq<string>) returns (rows: seq<User>)
    ensures forall u :: u in rows <==> u in db.users && u.email in emails
  {
    rows := [];
    for i := 0 to |db.users|
      invariant forall u :: u in rows <==> u in db.users[..i] && u.email in emails
    {
      assert db.users[..i + 1] == db.users[..i] + [db.users[i]];
      if db.users[i].email in emails {
        rows := [db.users[i]] + rows;
      }
    }
    assert db.users[..|db.users|] == db.users;
  }

  method FindMembers(db: Db, organizationId: string, emails: seq<string>) returns (rows: seq<Member>)
    ensures forall m :: m in rows <==> m in db.members && IsActiveMember(m, organizationId, m.email) && m.email in emails
  {
    rows := [];
    for i := 0 to |db.members|
      invariant forall m :: m in rows <==>
        m in db.members[..i] && IsActiveMember(m, organizationId, m.email) && m.email in emails
    {
      assert db.members[..i + 1] == db.members[..i] + [db.members[i]];
      if IsActiveMember(db.members[i], organizationId, db.members[i].email) && db.members[i].email in emails {
        rows := [db.members[i]] + rows;
      }
    }
    assert db.members[..|db.members|] == db.members;
  }

  method FindSettings(db: Db, organizationId: string) returns (rows: seq<Setting>)
    ensures forall s :: s in rows <==> s in db.settings && s.organizationId == organizationId
  {
    rows := [];
    for i := 0 to |db.settings|
      invariant forall s :: s in rows <==> s in db.settings[..i] && s.organizationId == organizationId
    {
      assert db.settings[..i + 1] == db.settings[..i] + [db.settings[i]];
      if db.settings[i].organizationId == organizationId {
        rows := [db.settings[i]] + rows;
      }
    }
    assert db.settings[..|db.settings|] == db.settings;
  }

  // ---------------------------------------------------------------- the batch form

  /** The first query of a batch that fails, if any does. */
  datatype Failure = NoFailure | UsersFail | MembersFail | SettingsFail

  /** The later queries run only when some listed user is neither an admin nor switched off. */
  predicate NeedsRoles(db: Db, emails: seq<string>) {
    exists u | u in db.users :: u.email in emails && !IsAdminOrOff(u)
  }

  predicate FailsOpen(db: Db, emails: seq<string>, failure: Failure) {
    match failure
    case NoFailure => false
    case UsersFail => emails != []
    case _ => NeedsRoles(db, emails)
  }

  /** Roles by email, from member rows. */
  ghost predicate CollectsRoles(roles: map<string, seq<string>>, rows: seq<Member>) {
    && (forall email | email in roles :: roles[email] != [])
    && (forall email, r :: (email in roles && r in roles[email]) <==>
          exists m | m in rows :: m.email == email && r in RolesIn(m.role))
    && (forall m | m in rows :: m.email in roles)
  }

  method CollectRoles(rows: seq<Member>) returns (roles: map<string, seq<string>>)
    ensures CollectsRoles(roles, rows)
  {
    roles := map[];
    for i := 0 to |rows|
      invariant CollectsRoles(roles, rows[..i])
    {
      var m := rows[i];
      assert rows[..i + 1] == rows[..i] + [m];
      var existing := if m.email in roles then roles[m.email] else [];
      ghost var before := roles;
      roles := roles[m.email := existing + RolesIn(m.role)];
      forall email, r
        ensures (email in roles && r in roles[email]) <==>
          exists n | n in rows[..i + 1] :: n.email == email && r in RolesIn(n.role)
      {
        assert (email in roles && r in roles[email]) <==>
          (email in before && r in before[email]) || (m.email == email && r in RolesIn(m.role));
      }
    }
    assert rows[..|rows|] == rows;
  }

  /** Settings by role; a later row for the same role would win. */
  ghost predicate CollectsSettings(byRole: map<string, Setting>, rows: seq<Setting>) {
    && (forall r | r in byRole :: byRole[r] in rows && byRole[r].role == r)
    && (forall s | s in rows :: s.role in byRole)
  }

  method CollectSettings(rows: seq<Setting>) returns (byRole: map<string, Setting>)
    ensures CollectsSettings(byRole, rows)
  {
    byRole := map[];
    for i := 0 to |rows|
      invariant CollectsSettings(byRole, rows[..i])
    {
      assert rows[..i + 1] == rows[..i] + [rows[i]];
      byRole := byRole[rows[i].role := rows[i]];
    }
    assert rows[..|rows|] == rows;
  }

  /** The role part of the resolution, as the batch works it out from its two maps. */
  method BatchRolesSayOff(roles: map<string, seq<string>>, byRole: map<string, Setting>, email: string, p: Preference)
    returns (off: bool)
    ensures off <==> OffByMaps(roles, byRole, email, p)
  {
    if !HasRoleSetting(p) || email !in roles || roles[email] == [] {
      return false;
    }
    var userRoles := roles[email];
    var found, enabled, allPortalOnly := false, false, true;
    for i := 0 to |userRoles|
      invariant found <==> exists r | r in userRoles[..i] :: r in byRole
      invariant enabled <==> exists r | r in userRoles[..i] :: r in byRole && Enabled(byRole[r].record, p)
      invariant allPortalOnly <==> forall r | r in userRoles[..i] :: IsPortalOnly(r)
    {
      var r := userRoles[i];
      assert userRoles[..i + 1] == userRoles[..i] + [r];
      found := found || r in byRole;
      enabled := enabled || (r in byRole && Enabled(byRole[r].record, p));
      allPortalOnly := allPortalOnly && IsPortalOnly(r);
    }
    assert userRoles[..|userRoles|] == userRoles;
    off := if found then !enabled else allPortalOnly && !Enabled(PORTAL_ONLY_DEFAULTS, p);
  }

  ghost predicate OffByMaps(roles: map<string, seq<string>>, byRole: map<string, Setting>, email: string, p: Preference) {
    HasRoleSetting(p) && email in roles && roles[email] != [] &&
    if exists r | r in roles[email] :: r in byRole
    then forall r | r in roles[email] && r in byRole :: !Enabled(byRole[r].record, p)
    else (forall r | r in roles[email] :: IsPortalOnly(r)) && !Enabled(PORTAL_ONLY_DEFAULTS, p)
  }

  lemma {:induction false} UserRolesAre(members: seq<Member>, organizationId: string, email: string)
    ensures forall r :: r in UserRoles(members, organizationId, email) <==>
      exists m | m in members :: IsActiveMember(m, organizationId, email) && r in RolesIn(m.role)
    ensures UserRoles(members, organizationId, email) != [] <==>
      exists m | m in members :: IsActiveMember(m, organizationId, email)
  {
    if members != [] {
      UserRolesAre(members[1..], organizationId, email);
      assert members == [members[0]] + members[1..];
    }
  }

  lemma {:induction false} RoleSettingsAre(settings: seq<Setting>, organizationId: string, roles: seq<string>)
    ensures forall s :: s in RoleSettings(settings, organizationId, roles) <==>
      s in settings && s.organizationId == organizationId && s.role in roles
  {
    if settings != [] {
      RoleSettingsAre(settings[1..], organizationId, roles);
      assert settings == [settings[0]] + settings[1..];
    }
  }

  lemma {:induction false} FindUserFinds(users: seq<User>, email: string)
    ensures match FindUser(users, email)
      case None => forall u | u in users :: u.email != email
      case Some(u) => u in users && u.email == email
  {
    if users != [] && users[0].email != email {
      FindUserFinds(users[1..], email);
      assert users == [users[0]] + users[1..];
    }
  }

  lemma RolesAgree(db: Db, organizationId: string, emails: seq<string>, email: string,
      members: seq<Member>, roles: map<string, seq<string>>)
    requires email in emails && CollectsRoles(roles, members)
    requires forall m :: m in members <==> m in db.members && IsActiveMember(m, organizationId, m.email) && m.email in emails
    ensures email in roles <==> UserRoles(db.members, organizationId, email) != []
    ensures email in roles ==> forall r :: r in roles[email] <==> r in UserRoles(db.members, organizationId, email)
  {
    UserRolesAre(db.members, organizationId, email);
    if email in roles {
      assert roles[email][0] in roles[email];
    }
  }

  /** The settings that the map holds for some roles are the ones that a query for those roles finds. */
  lemma SettingsAgree(db: Db, organizationId: string, roles: seq<string>, settings: seq<Setting>, byRole: map<string, Setting>)
    requires HasUniqueKeys(db) && CollectsSettings(byRole, settings)
    requires forall s :: s in settings <==> s in db.settings && s.organizationId == organizationId
    ensures var found := RoleSettings(db.settings, organizationId, roles);
      && (forall s | s in found :: s.role in roles && s.role in byRole && byRole[s.role] == s)
      && (forall r | r in roles && r in byRole :: byRole[r] in found)
      && (found != [] <==> exists r | r in roles :: r in byRole)
  {
    RoleSettingsAre(db.settings, organizationId, roles);
    var found := RoleSettings(db.settings, organizationId, roles);
    if found != [] {
      assert found[0] in found;
    }
  }

  /** The two maps give the same verdict as the check for one user. */
  lemma MapsAgree(db: Db, organizationId: string, emails: seq<string>, email: string, p: Preference,
      members: seq<Member>, settings: seq<Setting>, roles: map<string, seq<string>>, byRole: map<string, Setting>)
    requires HasUniqueKeys(db) && email in emails
    requires forall m :: m in members <==> m in db.members && IsActiveMember(m, organizationId, m.email) && m.email in emails
    requires forall s :: s in settings <==> s in db.settings && s.organizationId == organizationId
    requires CollectsRoles(roles, members) && CollectsSettings(byRole, settings)
    ensures OffByMaps(roles, byRole, email, p) <==> RolesSayOff(db, organizationId, email, p)
  {
    RolesAgree(db, organizationId, emails, email, members, roles);
    SettingsAgree(db, organizationId, UserRoles(db.members, organizationId, email), settings, byRole);
  }

  /** Admins and switched-off users are unsubscribed at once; the others go on to the role queries. */
  method DropAdminsAndOff(users: seq<User>) returns (unsubscribed: set<string>, surviving: seq<User>)
    ensures forall e :: e in unsubscribed <==> exists u | u in users :: IsAdminOrOff(u) && u.email == e
    ensures forall u :: u in surviving <==> u in users && !IsAdminOrOff(u)
  {
    unsubscribed, surviving := {}, [];
    for i := 0 to |users|
      invariant forall e :: e in unsubscribed <==> exists u | u in users[..i] :: IsAdminOrOff(u) && u.email == e
      invariant forall u :: u in surviving <==> u in users[..i] && !IsAdminOrOff(u)
    {
      assert users[..i + 1] == users[..i] + [users[i]];
      if IsAdminOrOff(users[i]) {
        unsubscribed := unsubscribed + {users[i].email};
      } else {
        surviving := surviving + [users[i]];
      }
    }
    assert users[..|users|] == users;
  }

  /** The remaining users that their roles or their own preferences switch off. */
  method ResolveSurviving(surviving: seq<User>, roles: map<string, seq<string>>, byRole: map<string, Setting>, p: Preference)
    returns (unsubscribed: set<string>)
    ensures forall e :: e in unsubscribed <==> exists u | u in surviving ::
                          u.email == e && (OffByMaps(roles, byRole, u.email, p) || OptedOut(u.preferences, p))
  {
    unsubscribed := {};
    for i := 0 to |surviving|
      invariant forall e :: e in unsubscribed <==> exists u | u in surviving[..i] ::
                              u.email == e && (OffByMaps(roles, byRole, u.email, p) || OptedOut(u.preferences, p))
    {
      var user := surviving[i];
      assert surviving[..i + 1] == surviving[..i] + [user];
      var off := BatchRolesSayOff(roles, byRole, user.email, p);
      if off || OptedOut(user.preferences, p) {
        unsubscribed := unsubscribed + {user.email};
      }
    }
    assert surviving[..|surviving|] == surviving;
  }

  /**
   * The batch form: an email is in the answer exactly when it is in the list and the check for one
   * user says so, whatever order the rows come in; a failed query empties the answer.
   */
  method GetUnsubscribedEmails(db: Db, emails: seq<string>, p: Preference, organizationId: string, failure: Failure)
    returns (unsubscribed: set<string>)
    requires HasUniqueKeys(db)
    requires organizationId != ""
    ensures FailsOpen(db, emails, failure) ==> unsubscribed == {}
    ensures !FailsOpen(db, emails, failure) ==>
      forall email :: email in unsubscribed <==>
        email in emails && IsUserUnsubscribed(db, email, Some(p), Some(organizationId))
  {
    if emails == [] || failure.UsersFail? {
      return {};
    }
    var users := FindUsers(db, emails);
    var surviving;
    unsubscribed, surviving := DropAdminsAndOff(users);
    if surviving == [] {
      SingleCheck(db, p, organizationId);
      return;
    }
    assert surviving[0] in surviving;
    if failure.MembersFail? {
      return {};
    }
    var survivingEmails := seq(|surviving|, i requires 0 <= i < |surviving| => surviving[i].email);
    var members := FindMembers(db, organizationId, survivingEmails);
    var roles := CollectRoles(members);
    if failure.SettingsFail? {
      return {};
    }
    var settings := FindSettings(db, organizationId);
    var byRole := CollectSettings(settings);
    forall u | u in surviving ensures OffByMaps(roles, byRole, u.email, p) <==> RolesSayOff(db, organizationId, u.email, p) {
      var i :| 0 <= i < |surviving| && surviving[i] == u;
      assert survivingEmails[i] == u.email;
      MapsAgree(db, organizationId, survivingEmails, u.email, p, members, settings, roles, byRole);
    }
    var byRolesOrChoice := ResolveSurviving(surviving, roles, byRole, p);
    unsubscribed := unsubscribed + byRolesOrChoice;
    SingleCheck(db, p, organizationId);
  }

  /** The check for one user, in terms of the one user that has the email. */
  lemma SingleCheck(db: Db, p: Preference, organizationId: string)
    requires HasUniqueKeys(db) && organizationId != ""
    ensures forall e :: IsUserUnsubscribed(db, e, Some(p), Some(organizationId)) <==>
      exists u | u in db.users :: u.email == e &&
        (IsAdminOrOff(u) || RolesSayOff(db, organizationId, e, p) || OptedOut(u.preferences, p))
  {
    forall e
      ensures IsUserUnsubscribed(db, e, Some(p), Some(organizationId)) <==>
        exists u | u in db.users :: u.email == e &&
          (IsAdminOrOff(u) || RolesSayOff(db, organizationId, e, p) || OptedOut(u.preferences, p))
    {
      FindUserFinds(db.users, e);
    }
  }

  // ---------------------------------------------------------------- the rules in full

  /** Over all active memberships of the email in the organization, this role is named. */
  ghost predicate HasRole(db: Db, organizationId: string, email: string, role: string) {
    exists m | m in db.members ::
      m.organizationId == organizationId && m.email == email && !m.deactivated && role in RolesIn(m.role)
  }

  /** This role switches the notification off: the one column of its setting that is about it is false. */
  predicate SwitchesOff(r: RoleRecord, p: Preference) {
    && (p.PolicyNotifications? ==> !r.policyNotifications)
    && (p.TaskReminders? ==> !r.taskReminders)
    && (p.WeeklyTaskDigest? ==> !r.weeklyTaskDigest)
    && (p.TaskMentions? ==> !r.taskMentions)
    && (p.TaskAssignments? ==> !r.taskAssignments)
    && (p.FindingNotifications? ==> !r.findingNotifications)
  }

  /** Some of the email's roles has a setting in the organization. */
  ghost predicate HasSetting(db: Db, organizationId: string, email: string, s: Setting) {
    s in db.settings && s.organizationId == organizationId && HasRole(db, organizationId, email, s.role)
  }

  /**
   * The roles switch a notification off if all their settings do; without any setting, if they are all
   * portal-only, which get policy notifications alone. Unassigned items have no role setting.
   */
  ghost predicate RolesSwitchOff(db: Db, organizationId: string, email: string, p: Preference) {
    && p != UnassignedItemsNotifications
    && (exists role :: HasRole(db, organizationId, email, role))
    && (if exists s :: HasSetting(db, organizationId, email, s)
        then forall s :: HasSetting(db, organizationId, email, s) ==> SwitchesOff(s.record, p)
        else p != PolicyNotifications &&
             forall role :: HasRole(db, organizationId, email, role) ==> role in ["employee", "contractor"])
  }

  lemma RolesAre(db: Db, organizationId: string, email: string)
    ensures var roles := UserRoles(db.members, organizationId, email);
      && (forall role :: HasRole(db, organizationId, email, role) <==> role in roles)
      && (roles != [] <==> exists role :: HasRole(db, organizationId, email, role))
  {
    var roles := UserRoles(db.members, organizationId, email);
    UserRolesAre(db.members, organizationId, email);
    if roles != [] {
      var role := roles[0];
      assert role in roles;
      var m :| m in db.members && IsActiveMember(m, organizationId, email) && role in RolesIn(m.role);
      assert HasRole(db, organizationId, email, role);
    }
  }

  lemma SettingsAre(db: Db, organizationId: string, email: string)
    ensures var settings := RoleSettings(db.settings, organizationId, UserRoles(db.members, organizationId, email));
      && (forall s :: HasSetting(db, organizationId, email, s) <==> s in settings)
      && (settings != [] <==> exists s :: HasSetting(db, organizationId, email, s))
  {
    var roles := UserRoles(db.members, organizationId, email);
    var settings := RoleSettings(db.settings, organizationId, roles);
    RolesAre(db, organizationId, email);
    RoleSettingsAre(db.settings, organizationId, roles);
    if settings != [] {
      assert settings[0] in settings && HasSetting(db, organizationId, email, settings[0]);
    }
  }

  lemma OneSwitch(r: RoleRecord, p: Preference)
    requires HasRoleSetting(p)
    ensures Enabled(r, p) <==> !SwitchesOff(r, p)
  {}

  lemma RolesSayOffMeans(db: Db, organizationId: string, email: string, p: Preference)
    ensures RolesSayOff(db, organizationId, email, p) <==> RolesSwitchOff(db, organizationId, email, p)
  {
    RolesAre(db, organizationId, email);
    SettingsAre(db, organizationId, email);
    if HasRoleSetting(p) {
      var settings := RoleSettings(db.settings, organizationId, UserRoles(db.members, organizationId, email));
      forall s | s in settings ensures Enabled(s.record, p) <==> !SwitchesOff(s.record, p) {
        OneSwitch(s.record, p);
      }
      OneSwitch(PORTAL_ONLY_DEFAULTS, p);
    }
  }

  /**
   * Who is unsubscribed, in full: a user that is a platform admin, has unsubscribed from everything, has
   * stored `false` for this preference, or whose roles in the organization switch it off.
   */
  lemma UnsubscribedMeans(db: Db, email: string, p: Preference, organizationId: string)
    requires HasUniqueKeys(db) && organizationId != ""
    ensures IsUserUnsubscribed(db, email, Some(p), Some(organizationId)) <==>
      exists u | u in db.users :: u.email == email &&
        (|| u.role == Some("admin") || u.unsubscribed
         || (u.preferences.Object? && p in u.preferences.values && u.preferences.values[p] == Flag(false))
         || RolesSwitchOff(db, organizationId, email, p))
  {
    SingleCheck(db, p, organizationId);
    RolesSayOffMeans(db, organizationId, email, p);
  }

  /** Without an organization only the user's own choice counts; without a preference only the two flags do. */
  lemma UnsubscribedWithoutOrganization(db: Db, email: string, preference: Option<Preference>, organizationId: Option<string>)
    requires HasUniqueKeys(db) && (organizationId == None || organizationId == Some(""))
    ensures IsUserUnsubscribed(db, email, preference, organizationId) <==>
      exists u | u in db.users :: u.email == email &&
        (|| u.role == Some("admin") || u.unsubscribed
         || (preference.Some? && u.preferences.Object? && preference.value in u.preferences.values
             && u.preferences.values[preference.value] == Flag(false)))
  {
    FindUserFinds(db.users, email);
  }
}

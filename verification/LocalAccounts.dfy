/**
 The local accounts that keep an administrator able to sign in: reconciliation with the environment
 at every start (app/auth/router.py), the administrator's account pages (app/routes/admin.py) and
 self-service password changes (app/routes/account.py).
 */
module LocalAccounts {
  import opened Text

  const MIN_PASSWORD_LENGTH := 12

  datatype Origin = FromEnv | Generated | FromUser | Unrecorded

  /** An ideal password hash: it verifies the password it was made from and no other. */
  datatype Hash = Hash(of: string)

  predicate Verifies(password: string, hash: Hash) {
    hash.of == password
  }

  datatype Account = Account(hash: Hash, role: string, active: bool, mustChange: bool, origin: Origin)

  /** Accounts by e-mail address; addresses are lower-cased before they are stored or looked up. */
  type Accounts = map<string, Account>

  predicate IsAdmin(u: Account) {
    u.role == "admin"
  }

  predicate HasActiveAdmin(accounts: Accounts) {
    exists email :: email in accounts && IsAdmin(accounts[email]) && accounts[email].active
  }

  /** `_effective_source`: rows from before the column infer it from the flag. */
  function EffectiveOrigin(u: Account): Origin {
    if u.origin != Unrecorded then u.origin
    else if u.mustChange then Generated else FromUser
  }

  // --- startup -----------------------------------------------------------------------------

  /** The configured address (lower-cased) and password, and the token this start would issue. */
  datatype Environment = Environment(email: string, password: string, token: string)

  /** What startup reports; `password` is filled in only when the app just made it up. */
  datatype Report = Report(email: string, origin: Origin, password: string, created: bool, changed: bool)

  /** The account a start reconciles: the configured one, else any administrator, else a new one. */
  predicate IsTarget(accounts: Accounts, env: Environment, target: Option<string>) {
    if env.email in accounts then target == Some(env.email)
    else if exists email :: email in accounts && IsAdmin(accounts[email]) then
      target.Some? && target.value in accounts && IsAdmin(accounts[target.value])
    else target == None
  }

  function Reconcile(accounts: Accounts, env: Environment, target: Option<string>): (Accounts, Report)
    requires IsTarget(accounts, env, target)
  {
    match target
    case None =>
      var configured := env.password != "";
      var password := if configured then env.password else env.token;
      var origin := if configured then FromEnv else Generated;
      (accounts[env.email := Account(Hash(password), "admin", true, false, origin)],
       Report(env.email, origin, if configured then "" else password, true, false))
    case Some(email) =>
      var u := accounts[email];
      if env.password != "" then
        if Verifies(env.password, u.hash) then
          (accounts[email := u.(origin := FromEnv)], Report(email, FromEnv, "", false, false))
        else
          (accounts[email := Account(Hash(env.password), u.role, true, false, FromEnv)],
           Report(email, FromEnv, "", false, true))
      else if EffectiveOrigin(u) == FromUser then (accounts, Report(email, FromUser, "", false, false))
      else
        (accounts[email := Account(Hash(env.token), u.role, true, false, Generated)],
         Report(email, Generated, env.token, false, true))
  }

  // --- the other steps -----------------------------------------------------------------------

  datatype Step =
    | Restart(env: Environment, target: Option<string>)
    | Create(email: string, password: string, role: string)
    | SetPassword(email: string, password: string, mustChange: bool)
    | Toggle(email: string, actor: string)
    | ChangeOwn(email: string, current: string, password: string, confirm: string)

  /** Whether the form or the guard lets the step through. */
  predicate Accepted(accounts: Accounts, step: Step) {
    match step
    case Restart(env, target) => IsTarget(accounts, env, target)
    case Create(email, password, role) =>
      && email != "" && '@' in email && |password| >= MIN_PASSWORD_LENGTH
      && role in {"admin", "power", "user"} && email !in accounts
    case SetPassword(email, password, _) => email in accounts && |password| >= MIN_PASSWORD_LENGTH
    case Toggle(email, actor) =>
      && email in accounts && email != actor
      && (accounts[email].active && IsAdmin(accounts[email]) ==>
            exists other :: other in accounts && other != email && IsAdmin(accounts[other]) && accounts[other].active)
    case ChangeOwn(email, current, password, confirm) =>
      && email in accounts && Verifies(current, accounts[email].hash)
      && password == confirm && |password| >= MIN_PASSWORD_LENGTH && password != current
  }

  function Apply(accounts: Accounts, step: Step): Accounts
    requires Accepted(accounts, step)
  {
    match step
    case Restart(env, target) => Reconcile(accounts, env, target).0
    case Create(email, password, role) =>
      accounts[email := Account(Hash(password), role, true, false, FromUser)]
    case SetPassword(email, password, mustChange) =>
      accounts[email := accounts[email].(hash := Hash(password), origin := FromUser, mustChange := mustChange)]
    case Toggle(email, _) => accounts[email := accounts[email].(active := !accounts[email].active)]
    case ChangeOwn(email, _, password, _) =>
      accounts[email := accounts[email].(hash := Hash(password), mustChange := false, origin := FromUser)]
  }

  /** A refused step leaves the accounts alone. */
  function Next(accounts: Accounts, step: Step): Accounts {
    if Accepted(accounts, step) then Apply(accounts, step) else accounts
  }

  function Run(accounts: Accounts, steps: seq<Step>): Accounts
    decreases |steps|
  {
    if steps == [] then accounts else Run(Next(accounts, steps[0]), steps[1..])
  }

  // --- the account table -----------------------------------------------------------------------

  class AccountTable {
    var accounts: Accounts

    constructor ()
      ensures accounts == map[]
    {
      accounts := map[];
    }

    method SyncLocalAdmin(env: Environment) returns (report: Report)
      modifies this
      ensures exists target ::
                && IsTarget(old(accounts), env, target)
                && accounts == Reconcile(old(accounts), env, target).0
                && report == Reconcile(old(accounts), env, target).1
    {
      var email := env.email;
      if env.email !in accounts {
        if exists e :: e in accounts && IsAdmin(accounts[e]) {
          email :| email in accounts && IsAdmin(accounts[email]);
        } else {
          var password := if env.password != "" then env.password else env.token;
          var origin := if env.password != "" then FromEnv else Generated;
          accounts := accounts[env.email := Account(Hash(password), "admin", true, false, origin)];
          assert IsTarget(old(accounts), env, None);
          return Report(env.email, origin, if env.password != "" then "" else password, true, false);
        }
      }
      assert IsTarget(accounts, env, Some(email));
      var u := accounts[email];
      if env.password != "" {
        if Verifies(env.password, u.hash) {
          accounts := accounts[email := u.(origin := FromEnv)];
          return Report(email, FromEnv, "", false, false);
        }
        accounts := accounts[email := u.(hash := Hash(env.password), origin := FromEnv, mustChange := false, active := true)];
        return Report(email, FromEnv, "", false, true);
      }
      if EffectiveOrigin(u) == FromUser {
        return Report(email, FromUser, "", false, false);
      }
      accounts := accounts[email := u.(hash := Hash(env.token), origin := Generated, mustChange := false, active := true)];
      return Report(email, Generated, env.token, false, true);
    }

    method CreateLocalUser(email: string, password: string, role: string) returns (ok: bool)
      modifies this
      ensures ok == Accepted(old(accounts), Create(email, password, role))
      ensures accounts == Next(old(accounts), Create(email, password, role))
    {
      if email == "" || '@' !in email { return false; }
      if |password| < MIN_PASSWORD_LENGTH { return false; }
      if role !in {"admin", "power", "user"} { return false; }
      if email in accounts { return false; }
      accounts := accounts[email := Account(Hash(password), role, true, false, FromUser)];
      return true;
    }

    method ChangeLocalPassword(email: string, password: string, mustChange: bool) returns (ok: bool)
      modifies this
      ensures ok == Accepted(old(accounts), SetPassword(email, password, mustChange))
      ensures accounts == Next(old(accounts), SetPassword(email, password, mustChange))
    {
      if email !in accounts { return false; }
      if |password| < MIN_PASSWORD_LENGTH { return false; }
      accounts := accounts[email := accounts[email].(hash := Hash(password), origin := FromUser, mustChange := mustChange)];
      return true;
    }

    method ToggleLocalUser(email: string, actor: string) returns (ok: bool)
      modifies this
      ensures ok == Accepted(old(accounts), Toggle(email, actor))
      ensures accounts == Next(old(accounts), Toggle(email, actor))
    {
      if email !in accounts { return false; }
      if email == actor { return false; }
      var u := accounts[email];
      var others := set e | e in accounts && e != email && IsAdmin(accounts[e]) && accounts[e].active;
      assert forall e :: e in accounts && e != email && IsAdmin(accounts[e]) && accounts[e].active ==> e in others;
      if u.active && IsAdmin(u) && others == {} { return false; }
      assert others != {} ==> exists e :: e in others;
      accounts := accounts[email := u.(active := !u.active)];
      return true;
    }

    method ChangePassword(email: string, current: string, password: string, confirm: string) returns (ok: bool)
      modifies this
      ensures ok == Accepted(old(accounts), ChangeOwn(email, current, password, confirm))
      ensures accounts == Next(old(accounts), ChangeOwn(email, current, password, confirm))
    {
      if email !in accounts { return false; }
      var u := accounts[email];
      if !Verifies(current, u.hash) { return false; }
      if password != confirm { return false; }
      if |password| < MIN_PASSWORD_LENGTH { return false; }
      if password == current { return false; }
      accounts := accounts[email := u.(hash := Hash(password), mustChange := false, origin := FromUser)];
      return true;
    }
  }

  // --- never locked out ----------------------------------------------------------------------------

  lemma {:induction false} StepKeepsActiveAdmin(accounts: Accounts, step: Step)
    requires HasActiveAdmin(accounts)
    ensures HasActiveAdmin(Next(accounts, step))
  {
    var next := Next(accounts, step);
    var email :| email in accounts && IsAdmin(accounts[email]) && accounts[email].active;
    if step.Toggle? && step.email == email && Accepted(accounts, step) {
      var other :| other in accounts && other != email && IsAdmin(accounts[other]) && accounts[other].active;
      assert next[other] == accounts[other];
    } else {
      assert email in next && IsAdmin(next[email]) && next[email].active;
    }
  }

  /** From an empty database, whatever happens after the first start, some administrator is active. */
  lemma {:induction false} NeverLockedOut(env: Environment, steps: seq<Step>)
    ensures HasActiveAdmin(Run(map[], [Restart(env, None)] + steps))
  {
    var first := Next(map[], Restart(env, None));
    assert env.email in first && IsAdmin(first[env.email]) && first[env.email].active;
    assert ([Restart(env, None)] + steps)[1..] == steps;
    RunKeepsActiveAdmin(first, steps);
  }

  lemma {:induction false} RunKeepsActiveAdmin(accounts: Accounts, steps: seq<Step>)
    requires HasActiveAdmin(accounts)
    ensures HasActiveAdmin(Run(accounts, steps))
    decreases |steps|
  {
    if steps != [] {
      StepKeepsActiveAdmin(accounts, steps[0]);
      RunKeepsActiveAdmin(Next(accounts, steps[0]), steps[1..]);
    }
  }

  // --- what a start reports works ---------------------------------------------------------------------

  /** A reported password, or else the configured one, opens the account the report names. */
  lemma {:induction false} ReportedPasswordWorks(accounts: Accounts, env: Environment, target: Option<string>)
    requires IsTarget(accounts, env, target) && env.token != ""
    ensures var (after, report) := Reconcile(accounts, env, target);
            && report.email in after
            && (report.password != "" ==> env.password == "" && Verifies(report.password, after[report.email].hash))
            && (env.password != "" ==> Verifies(env.password, after[report.email].hash))
            && (report.password == "" && env.password == "" ==> report.origin == FromUser && after == accounts)
            && forall other :: other in accounts && other != report.email ==> other in after && after[other] == accounts[other]
  {
  }

  /**
   A start leaves its account enabled, except one that was disabled and whose password it did not
   have to set: the configured one matched already, or a person owns it.
   */
  lemma {:induction false} EnabledExactly(accounts: Accounts, env: Environment, target: Option<string>)
    requires IsTarget(accounts, env, target)
    ensures var (after, report) := Reconcile(accounts, env, target);
            report.email in after &&
            (after[report.email].active <==>
               target.None? || accounts[target.value].active
               || (env.password != "" && !Verifies(env.password, accounts[target.value].hash))
               || (env.password == "" && EffectiveOrigin(accounts[target.value]) != FromUser))
  {
  }

  // --- a password somebody chose ------------------------------------------------------------------------

  predicate Opens(accounts: Accounts, email: string, password: string) {
    email in accounts && Verifies(password, accounts[email].hash)
  }

  /** A start leaves the password of an account alone exactly when it reconciles another one, or has no other to set. */
  lemma {:induction false} StartKeepsPasswordExactly(accounts: Accounts, env: Environment, target: Option<string>, email: string)
    requires IsTarget(accounts, env, target) && email in accounts
    ensures var after := Reconcile(accounts, env, target).0;
            email in after &&
            (after[email].hash == accounts[email].hash <==>
               || target != Some(email)
               || (if env.password != "" then Verifies(env.password, accounts[email].hash)
                   else EffectiveOrigin(accounts[email]) == FromUser || Verifies(env.token, accounts[email].hash)))
  {
  }

  /** The accounts each start reconciles are ones it can reconcile. */
  predicate PossibleStarts(accounts: Accounts, steps: seq<Step>)
    decreases |steps|
  {
    steps == [] ||
    ((steps[0].Restart? ==> Accepted(accounts, steps[0])) && PossibleStarts(Next(accounts, steps[0]), steps[1..]))
  }

  /** No step by which a person sets a password on this account. */
  predicate NoNewChoice(step: Step, email: string) {
    match step
    case SetPassword(e, _, _) => e != email
    case ChangeOwn(e, _, _, _) => e != email
    case _ => true
  }

  predicate Reconciles(step: Step, email: string) {
    step.Restart? && step.target == Some(email)
  }

  /**
   The starts that leave this password on this account, read off the starts alone: a configured one
   must name the same password, and so must the token of a blank one once the app manages the account,
   which it does from the first configured start on.
   */
  predicate StartsLeave(steps: seq<Step>, email: string, password: string, managed: bool)
    decreases |steps|
  {
    steps == [] ||
    (&& (Reconciles(steps[0], email) ==>
           if steps[0].env.password != "" then steps[0].env.password == password
           else !managed || steps[0].env.token == password)
     && StartsLeave(steps[1..], email, password,
                    managed || (Reconciles(steps[0], email) && steps[0].env.password != "")))
  }

  /** The password opens the account now and after every step. */
  predicate OpensThroughout(accounts: Accounts, steps: seq<Step>, email: string, password: string)
    decreases |steps|
  {
    Opens(accounts, email, password)
    && (steps == [] || OpensThroughout(Next(accounts, steps[0]), steps[1..], email, password))
  }

  predicate Managed(accounts: Accounts, email: string) {
    email in accounts && EffectiveOrigin(accounts[email]) != FromUser
  }

  lemma {:induction false} StepLeavesExactly(accounts: Accounts, step: Step, email: string, password: string)
    requires Opens(accounts, email, password) && NoNewChoice(step, email)
    requires step.Restart? ==> Accepted(accounts, step)
    ensures var next := Next(accounts, step);
            && email in next
            && (Opens(next, email, password) <==> StartsLeave([step], email, password, Managed(accounts, email)))
            && (Opens(next, email, password) ==>
                  Managed(next, email) ==
                  (Managed(accounts, email) || (Reconciles(step, email) && step.env.password != "")))
  {
    assert [step][1..] == [];
  }

  lemma {:induction false} OpensExactly(accounts: Accounts, steps: seq<Step>, email: string, password: string)
    requires Opens(accounts, email, password) && PossibleStarts(accounts, steps)
    requires forall i :: 0 <= i < |steps| ==> NoNewChoice(steps[i], email)
    ensures OpensThroughout(accounts, steps, email, password)
       <==> StartsLeave(steps, email, password, Managed(accounts, email))
    decreases |steps|
  {
    if steps != [] {
      var next, rest := Next(accounts, steps[0]), steps[1..];
      StepLeavesExactly(accounts, steps[0], email, password);
      assert [steps[0]][1..] == [];
      if Opens(next, email, password) {
        OpensExactly(next, rest, email, password);
      }
    }
  }

  /** A step by which a person chooses a password for this account. */
  predicate Chooses(step: Step, email: string, password: string) {
    match step
    case Create(e, p, _) => e == email && p == password
    case SetPassword(e, p, _) => e == email && p == password
    case ChangeOwn(e, _, p, _) => e == email && p == password
    case _ => false
  }

  /** Exactly the runs through which a password a person chose keeps working. */
  lemma {:induction false} ChosenPasswordKeptExactly(accounts: Accounts, choice: Step, steps: seq<Step>, email: string, password: string)
    requires Accepted(accounts, choice) && Chooses(choice, email, password)
    requires PossibleStarts(Next(accounts, choice), steps)
    requires forall i :: 0 <= i < |steps| ==> NoNewChoice(steps[i], email)
    ensures OpensThroughout(Next(accounts, choice), steps, email, password) <==> StartsLeave(steps, email, password, false)
  {
    OpensExactly(Next(accounts, choice), steps, email, password);
  }

  lemma {:induction false} BlankStartsLeave(steps: seq<Step>, email: string, password: string)
    requires forall i :: 0 <= i < |steps| && Reconciles(steps[i], email) ==> steps[i].env.password == ""
    ensures StartsLeave(steps, email, password, false)
    decreases |steps|
  {
    if steps != [] { BlankStartsLeave(steps[1..], email, password); }
  }

  /** In particular it survives every later start with a blank environment. */
  lemma {:induction false} ChosenPasswordSurvives(accounts: Accounts, choice: Step, steps: seq<Step>, email: string, password: string)
    requires Accepted(accounts, choice) && Chooses(choice, email, password)
    requires PossibleStarts(Next(accounts, choice), steps)
    requires forall i :: 0 <= i < |steps| ==> NoNewChoice(steps[i], email)
    requires forall i :: 0 <= i < |steps| && Reconciles(steps[i], email) ==> steps[i].env.password == ""
    ensures OpensThroughout(Next(accounts, choice), steps, email, password)
  {
    BlankStartsLeave(steps, email, password);
    ChosenPasswordKeptExactly(accounts, choice, steps, email, password);
  }

  /**
   One start with a configured password takes over the account it reconciles, even when that is the
   very password the person chose: a later start without one issues a new password.
   */
  lemma {:induction false} ConfiguredStartTakesOver(accounts: Accounts, configured: Environment, blank: Environment, email: string)
    requires configured.password != "" && blank.password == ""
    requires email in accounts && IsTarget(accounts, configured, Some(email))
    requires IsTarget(Reconcile(accounts, configured, Some(email)).0, blank, Some(email))
    ensures var first := Reconcile(accounts, configured, Some(email)).0;
            var after := Reconcile(first, blank, Some(email)).0;
            email in after && after[email].hash == Hash(blank.token) && after[email].origin == Generated
  {
  }

  // --- what the forms do ----------------------------------------------------------------------------------

  /** An account made on the form has its role and password, is active, and needs an acceptable form and a free address. */
  lemma {:induction false} CreatedAccount(accounts: Accounts, email: string, password: string, role: string)
    ensures var after := Next(accounts, Create(email, password, role));
            if '@' in email && |password| >= 12 && role in {"admin", "power", "user"} && email !in accounts
            then email in after && after == accounts[email := after[email]]
                 && Opens(after, email, password) && after[email].role == role && after[email].active && !after[email].mustChange
            else after == accounts
  {
  }

  /** A change of one's own password needs the current one, and sets the new one and nothing but its bookkeeping. */
  lemma {:induction false} OwnChange(accounts: Accounts, email: string, current: string, password: string, confirm: string)
    ensures var after := Next(accounts, ChangeOwn(email, current, password, confirm));
            if Opens(accounts, email, current) && password == confirm && |password| >= 12 && password != current
            then after.Keys == accounts.Keys && after == accounts[email := after[email]] && Opens(after, email, password)
                 && after[email].role == accounts[email].role && after[email].active == accounts[email].active
                 && !after[email].mustChange && after[email].origin == FromUser
            else after == accounts
  {
  }

  /** An administrator's reset sets the password and whether it must be changed, and nothing else. */
  lemma {:induction false} AdminReset(accounts: Accounts, email: string, password: string, mustChange: bool)
    ensures var after := Next(accounts, SetPassword(email, password, mustChange));
            if email in accounts && |password| >= 12
            then after.Keys == accounts.Keys && after == accounts[email := after[email]] && Opens(after, email, password)
                 && after[email].role == accounts[email].role && after[email].active == accounts[email].active
                 && after[email].mustChange == mustChange && after[email].origin == FromUser
            else after == accounts
  {
  }

  /** A toggle turns `active` round, except for the actor and for the last active administrator. */
  lemma {:induction false} Toggled(accounts: Accounts, email: string, actor: string)
    requires email in accounts
    ensures var after := Next(accounts, Toggle(email, actor));
            var last := accounts[email].active && accounts[email].role == "admin"
                        && forall other :: other in accounts && other != email && accounts[other].role == "admin" ==> !accounts[other].active;
            after == if email == actor || last then accounts
                     else accounts[email := accounts[email].(active := !accounts[email].active)]
  {
  }

  /** A new administrator is made exactly when there is none and the configured address is free. */
  lemma {:induction false} StartCreates(accounts: Accounts, env: Environment, target: Option<string>)
    requires IsTarget(accounts, env, target)
    ensures var (after, report) := Reconcile(accounts, env, target);
            && (report.created <==> env.email !in accounts && forall email :: email in accounts ==> accounts[email].role != "admin")
            && (report.created ==> env.email in after && after == accounts[env.email := after[env.email]]
                                   && after[env.email].role == "admin" && after[env.email].active && !after[env.email].mustChange
                                   && report.email == env.email)
            && (!report.created ==> after.Keys == accounts.Keys && report.email in accounts
                                    && after[report.email].role == accounts[report.email].role
                                    && (env.email in accounts ==> report.email == env.email)
                                    && (env.email !in accounts ==> accounts[report.email].role == "admin"))
            && (report.changed <==>
                  && !report.created
                  && if env.password != "" then !Verifies(env.password, accounts[report.email].hash)
                     else EffectiveOrigin(accounts[report.email]) != FromUser)
  {
  }

  /** Which origin a row without one counts as. */
  lemma {:induction false} InferredOrigin(u: Account)
    ensures EffectiveOrigin(u) == if u.origin in {FromEnv, Generated, FromUser} then u.origin else if u.mustChange then Generated else FromUser
  {
  }

  /** What a start writes: the configured password, or a fresh token where nobody chose one, and its origin. */
  lemma {:induction false} StartWrites(accounts: Accounts, env: Environment, target: Option<string>)
    requires IsTarget(accounts, env, target)
    ensures var (after, report) := Reconcile(accounts, env, target);
            && report.email in after && report.origin == (if report.origin == FromUser then FromUser else after[report.email].origin)
            && (report.created || report.changed ==>
                  var u := after[report.email];
                  && u.active && !u.mustChange && report.origin == u.origin
                  && u.origin == (if env.password != "" then FromEnv else Generated)
                  && u.hash.of == (if env.password != "" then env.password else env.token)
                  && report.password == (if env.password != "" then "" else env.token))
            && (!report.created && !report.changed ==>
                  report.password == "" && after == if env.password == "" then accounts
                                                    else accounts[report.email := accounts[report.email].(origin := FromEnv)])
  {
  }
}

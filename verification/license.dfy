/**
  The license gate in front of the renderer: the login overlay, the two
  stored credentials (`ms_user`, `ms_key`) and the periodic revalidation.

  Every call to the license endpoint is replaced by its outcome, supplied as
  an input. Timers are tracked as the set of live intervals plus the
  module-level variable `licenseCheckInterval`, so that "at most one live
  heartbeat" is a statement about the state rather than an assumption.
 */
module License {
  import opened Options
  import opened Text

  /** How one POST to the license endpoint ended. */
  datatype Reply =
    | Accepted                          // `data.ok` is truthy
    | Rejected(message: Option<string>)  // `data.ok` is falsy, with `data.message`
    | TransportError                    // `fetch` or `res.json()` threw

  /** The two localStorage entries the gate owns. */
  datatype Store = Store(user: Option<string>, key: Option<string>)

  /** A live `setInterval` revalidating the credentials it captured. */
  datatype Timer = Timer(handle: nat, user: string, key: string)

  datatype Button = Button(enabled: bool, caption: string)

  datatype Gate = Gate(
    store: Store,
    interval: Option<Timer>,   // licenseCheckInterval
    live: set<Timer>,          // intervals that will still fire
    nextHandle: nat,
    overlay: bool,             // the login overlay is shown
    error: string,             // loginError.textContent
    button: Button)

  const Empty := Store(None, None)
  const EnterLabel := "Entrar"
  const CheckingLabel := "Verificando..."
  const InvalidKeyText := "Invalid key."
  const ConnectionErrorText := "Connection error. Try again later."
  const MissingFieldsText := "Completa ambos campos."
  const DefaultUser := "Unknown"
  const RevokedText := "Tu licencia ya no es v\U{00E1}lida. La aplicaci\U{00F3}n se reiniciar\U{00E1}."

  /** A freshly loaded page over the given storage, before auto-login. */
  function Fresh(store: Store): Gate
  {
    Gate(store, None, {}, 0, true, "", Button(true, EnterLabel))
  }

  function TimerSet(t: Option<Timer>): set<Timer>
  {
    if t.Some? then {t.value} else {}
  }

  /**
    The gate's invariant: the only live interval is the one the variable holds,
    a heartbeat runs exactly while the overlay is hidden, and it revalidates the
    credentials in storage.
   */
  ghost predicate Consistent(g: Gate)
  {
    && g.live == TimerSet(g.interval)
    && (forall t :: t in g.live ==> t.handle < g.nextHandle)
    && (g.interval.Some? <==> !g.overlay)
    && (g.interval.Some? ==> g.store == Store(Some(g.interval.value.user), Some(g.interval.value.key)))
  }

  // ---------------------------------------------------------------------------
  // Heartbeat
  // ---------------------------------------------------------------------------

  /**
    `startLicenseHeartbeat`: clear the interval the variable holds, then install
    a new one for `user` and `key`.
   */
  function StartHeartbeat(g: Gate, user: string, key: string): (r: Gate)
    ensures r.interval.Some? && r.interval.value.user == user && r.interval.value.key == key
    ensures r.interval.value.handle == g.nextHandle && r.nextHandle > g.nextHandle
    ensures r.live == (g.live - TimerSet(g.interval)) + {r.interval.value}
    ensures (forall t :: t in g.live ==> t.handle < g.nextHandle) ==> r.interval.value !in g.live
    ensures g.live <= TimerSet(g.interval) ==> r.live == {r.interval.value}
    ensures r.store == g.store && r.overlay == g.overlay && r.error == g.error && r.button == g.button
  {
    var cleared := if g.interval.Some? then g.(live := g.live - {g.interval.value}, interval := None) else g;
    var t := Timer(cleared.nextHandle, user, key);
    cleared.(interval := Some(t), live := cleared.live + {t}, nextHandle := cleared.nextHandle + 1)
  }

  /** However often the heartbeat is restarted, at most one interval is live. */
  lemma RestartKeepsOneTimer(g: Gate, user: string, key: string)
    requires g.live == TimerSet(g.interval)
    ensures var r := StartHeartbeat(g, user, key);
            r.live == TimerSet(r.interval) && |r.live| == 1
  {
  }

  /** The outcome of one heartbeat tick. */
  datatype TickOutcome =
    | Kept(gate: Gate)
    | Revoked(notice: string, store: Store)  // alert text; storage left for the reload

  /**
    One firing of the heartbeat: an explicit rejection clears the interval,
    alerts the server's message (or the default notice), removes both stored
    entries and reloads the page; an acceptance or a transport error changes
    nothing.
   */
  function Tick(g: Gate, reply: Reply): (o: TickOutcome)
    requires g.interval.Some?
    ensures reply.Rejected? <==> o.Revoked?
    ensures o.Revoked? ==> o.store == Empty
    ensures o.Revoked? ==> (o.notice == if Truthy(reply.message) then reply.message.value else RevokedText)
    ensures o.Kept? ==> o.gate == g
  {
    match reply
    case Rejected(message) =>
      // clearInterval and the variable reset are undone by the reload anyway
      Revoked(if Truthy(message) then message.value else RevokedText, Empty)
    case _ => Kept(g)
  }

  // ---------------------------------------------------------------------------
  // Validation
  // ---------------------------------------------------------------------------

  /** The in-flight state of `validateAndUnlock`: error cleared, button disabled. */
  function BeginValidation(g: Gate): (r: Gate)
    ensures !r.button.enabled && r.button.caption == CheckingLabel && r.error == ""
    ensures r.store == g.store && r.interval == g.interval && r.live == g.live && r.overlay == g.overlay
  {
    g.(error := "", button := Button(false, CheckingLabel))
  }

  datatype Validation = Validation(gate: Gate, ok: bool)

  /**
    `validateAndUnlock(user, key)` once the endpoint has answered. On acceptance
    the credentials are stored, the overlay hidden and the heartbeat started;
    otherwise the error text is set, and nothing is stored or started.
   */
  function ValidateAndUnlock(g: Gate, user: string, key: string, reply: Reply): (v: Validation)
    ensures v.ok <==> reply.Accepted?
    ensures v.gate.button == Button(true, EnterLabel)
    ensures v.ok ==> && v.gate.store == Store(Some(user), Some(key))
                     && !v.gate.overlay && v.gate.error == ""
                     && v.gate.interval.Some? && v.gate.interval.value.user == user && v.gate.interval.value.key == key
    ensures !v.ok ==> && v.gate.store == g.store && v.gate.interval == g.interval && v.gate.live == g.live
                      && v.gate.overlay == g.overlay
    ensures reply.Rejected? ==> v.gate.error == if Truthy(reply.message) then reply.message.value else InvalidKeyText
    ensures reply.TransportError? ==> v.gate.error == ConnectionErrorText
  {
    var busy := BeginValidation(g);
    match reply
    case Accepted =>
      var stored := busy.(store := Store(Some(user), Some(key)), overlay := false, error := "",
                          button := Button(true, EnterLabel));
      Validation(StartHeartbeat(stored, user, key), true)
    case Rejected(message) =>
      var text := if Truthy(message) then message.value else InvalidKeyText;
      Validation(busy.(error := text, button := Button(true, EnterLabel)), false)
    case TransportError =>
      Validation(busy.(error := ConnectionErrorText, button := Button(true, EnterLabel)), false)
  }

  lemma ValidatePreservesConsistent(g: Gate, user: string, key: string, reply: Reply)
    requires Consistent(g)
    ensures Consistent(ValidateAndUnlock(g, user, key, reply).gate)
  {
  }

  // ---------------------------------------------------------------------------
  // Page load and the login button
  // ---------------------------------------------------------------------------

  /**
    Page load with the auto-login block: without a stored key nothing is sent;
    otherwise the stored credentials are validated (a blank user as "Unknown")
    and, if that fails, both entries are removed.
   */
  function Boot(store: Store, reply: Reply): (g: Gate)
    ensures !Truthy(store.key) ==> g == Fresh(store)
    ensures Truthy(store.key) && reply.Accepted? ==>
              && !g.overlay && g.interval.Some?
              && g.store == Store(Some(if Truthy(store.user) then store.user.value else DefaultUser), store.key)
    ensures Truthy(store.key) && !reply.Accepted? ==> g.overlay && g.interval.None? && g.store == Empty
    ensures Consistent(g)
  {
    var g0 := Fresh(store);
    if !Truthy(store.key) then g0
    else
      var user := if Truthy(store.user) then store.user.value else DefaultUser;
      var v := ValidateAndUnlock(g0, user, store.key.value, reply);
      if v.ok then v.gate else v.gate.(store := Empty)
  }

  /** The login form's two fields, before trimming. */
  datatype LoginForm = LoginForm(user: string, key: string)

  /**
    The login button: a blank user becomes "Unknown"; a blank key only sets
    the missing-fields error and sends nothing.
   */
  function OnLoginClick(g: Gate, form: LoginForm, reply: Reply): (r: Gate)
    ensures |Trim(form.key)| == 0 ==> r == g.(error := MissingFieldsText)
    ensures |Trim(form.key)| > 0 ==>
              var user := if |Trim(form.user)| > 0 then Trim(form.user) else DefaultUser;
              r == ValidateAndUnlock(g, user, Trim(form.key), reply).gate
  {
    var user := if |Trim(form.user)| > 0 then Trim(form.user) else DefaultUser;
    var key := Trim(form.key);
    if |user| == 0 || |key| == 0 then g.(error := MissingFieldsText)
    else ValidateAndUnlock(g, user, key, reply).gate
  }

  /** A successful login stores exactly the trimmed credentials the heartbeat then revalidates. */
  lemma LoginStoresTrimmed(g: Gate, form: LoginForm)
    requires |Trim(form.key)| > 0 && |Trim(form.user)| > 0
    ensures var r := OnLoginClick(g, form, Accepted);
            && r.store == Store(Some(Trim(form.user)), Some(Trim(form.key)))
            && r.interval.Some? && r.interval.value.user == Trim(form.user)
            && r.interval.value.key == Trim(form.key)
            && !r.overlay
  {
  }

  /** The click never leaves the gate inconsistent. */
  lemma LoginPreservesConsistent(g: Gate, form: LoginForm, reply: Reply)
    requires Consistent(g)
    ensures Consistent(OnLoginClick(g, form, reply))
  {
  }

  /**
    A revoked heartbeat leaves no credentials behind: the next page load finds
    no key and stays on the login overlay without contacting the server.
   */
  lemma RevocationLogsOut(g: Gate, message: Option<string>, next: Reply)
    requires Consistent(g) && g.interval.Some?
    ensures var o := Tick(g, Rejected(message));
            o.Revoked? && Boot(o.store, next) == Fresh(Empty) && Boot(o.store, next).overlay
  {
  }
}

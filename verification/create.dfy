/**
  The create button's click handler: validate the URL and the count, then
  either ask the main process for native windows or open the sessions as
  tabs.
 */
module CreateHandler {
  import opened Options
  import opened Text
  import opened Numbers
  import opened Urls
  import opened Sessions

  /** What the form holds when the button is pressed. */
  datatype Form = Form(url: string, count: string, native: bool)

  /** The `{url, count}` request sent over `openMultipleWindows`. */
  datatype BridgeRequest = BridgeRequest(url: string, count: nat)

  /**
    How the `openMultipleWindows` call ended: a reply whose `message` is a
    string, any other reply, or a rejected call.
   */
  datatype BridgeAnswer = Answer(ok: bool, message: string) | Unexpected | Threw

  const InvalidUrlText := "URL inv\U{00E1}lida. Ejemplo: https://ejemplo.com"
  const UnexpectedText := "Se solicit\U{00F3} abrir ventanas nativas, pero la respuesta fue inesperada."
  const BridgeErrorText := "Ocurri\U{00F3} un error al abrir las ventanas nativas. Revisa la consola."

  function CreatedText(total: nat): string
  {
    "Se crearon " + Dec(total) + " sesi\U{00F3}n(es) en pesta\U{00F1}as."
  }

  /** The status line after the main process answered. */
  function AnswerStatus(answer: BridgeAnswer): (s: Status)
    ensures answer.Answer? ==> s.text == answer.message && (s.error <==> !answer.ok)
    ensures !answer.Answer? ==> s.error
  {
    match answer
    case Answer(ok, message) => Status(message, !ok)
    case Unexpected => Status(UnexpectedText, true)
    case Threw => Status(BridgeErrorText, true)
  }

  /**
    What the tab path leaves behind: one session for `url` per non-throwing
    iteration after the earlier ones, the last one current, the fallback
    counter advanced once per iteration, the invariant kept under the clock
    fallback, and a status reporting the requested total.
   */
  ghost predicate OpenedTabs(m: Manager, r: Manager, url: string, total: nat, env: Env)
  {
    && r.status == Status(CreatedText(total), false)
    && |r.tabs| == |m.tabs| + Succeeded(env.fails, total)
    && Extends(m, r, url)
    && (|r.tabs| > |m.tabs| ==> r.current == Some(r.tabs[|r.tabs| - 1].session.id))
    && (|r.tabs| == |m.tabs| ==> r.tabs == m.tabs && r.current == m.current)
    && (!env.crypto ==> r.counter == m.counter + total)
    && (!env.crypto && Valid(m) && SerialsBelow(m) ==> Valid(r) && SerialsBelow(r))
  }

  /** The loop over `createSession`, then the status line naming the requested total. */
  method OpenTabs(m: Manager, url: string, total: nat, env: Env) returns (r: Manager)
    ensures OpenedTabs(m, r, url, total, env)
  {
    var created := CreateTabs(m, url, total, env);
    r := created.(status := Status(CreatedText(total), false));
    assert Valid(created) ==> Valid(r);
  }

  /**
    `createBtn.onclick`. An unusable URL only sets the error status: no
    session is created and nothing is sent. With native windows requested and
    the bridge present, one request goes out and only the status changes.
    Otherwise the loop opens the sessions as tabs and the status reports the
    requested total, however many of them were created.
   */
  method OnCreate(m: Manager, form: Form, bridge: bool, parses: UrlParser, env: Env, answer: BridgeAnswer)
    returns (r: Manager, sent: Option<BridgeRequest>)
    ensures var url := NormalizeUrl(Some(form.url), parses);
            url.None? ==> sent == None && r == m.(status := Status(InvalidUrlText, true))
    ensures var url := NormalizeUrl(Some(form.url), parses);
            url.Some? && form.native && bridge ==>
              && sent == Some(BridgeRequest(url.value, RequestedTotal(form.count)))
              && r == m.(status := AnswerStatus(answer))
    ensures var url := NormalizeUrl(Some(form.url), parses);
            url.Some? && !(form.native && bridge) ==>
              sent == None && OpenedTabs(m, r, url.value, RequestedTotal(form.count), env)
  {
    // The handler first blanks the status line; every path below overwrites it.
    var url := NormalizeUrl(Some(form.url), parses);
    var total := RequestedTotal(form.count);
    if url.None? {
      r, sent := m.(status := Status(InvalidUrlText, true)), None;
    } else if form.native && bridge {
      r, sent := m.(status := AnswerStatus(answer)), Some(BridgeRequest(url.value, total));
    } else {
      r := OpenTabs(m, url.value, total, env);
      sent := None;
    }
  }

  /** The reported count is the requested one: with a failed iteration it exceeds what was created. */
  lemma ReportOvercountsOnFailure(total: nat, fails: set<nat>, f: nat)
    requires f < total && f in fails
    ensures Succeeded(fails, total) < total
  {
    SucceededBelow(fails, total, f);
  }

  lemma {:induction false} SucceededBelow(fails: set<nat>, n: nat, f: nat)
    requires f < n && f in fails
    ensures Succeeded(fails, n) < n
  {
    if f < n - 1 {
      SucceededBelow(fails, n - 1, f);
    }
  }

  /** With no failures every requested session is created. */
  lemma {:induction false} SucceededAll(fails: set<nat>, n: nat)
    requires forall f :: f in fails ==> f >= n
    ensures Succeeded(fails, n) == n
  {
    if n > 0 {
      SucceededAll(fails, n - 1);
    }
  }
}

/**
  The renderer page as a whole: the license gate and the tab manager, and the
  two places they meet another part of the system. A revocation reloads the
  page, dropping every tab; a native-windows request crosses to the main
  process.
 */
module App {
  import opened Options
  import opened Text
  import opened Numbers
  import opened Urls
  import opened Sessions
  import opened License
  import opened Bridge

  datatype Page = Page(gate: Gate, manager: Manager)

  /** A page load over the stored credentials, auto-login included. */
  function Load(store: Store, reply: License.Reply): (p: Page)
    ensures p.manager == Initial && Consistent(p.gate) && Valid(p.manager)
  {
    Page(Boot(store, reply), Initial)
  }

  /**
    A heartbeat tick on a logged-in page. A rejection reloads the page over
    the cleared storage; `afterReload` is what the reloaded page's auto-login
    would be told, had it anything to send.
   */
  function HeartbeatTick(p: Page, reply: License.Reply, afterReload: License.Reply): (r: Page)
    requires p.gate.interval.Some?
    ensures reply.Rejected? ==> && r.manager == Initial
                                && r.gate.overlay && r.gate.interval.None? && r.gate.live == {}
                                && r.gate.store == Empty
    ensures !reply.Rejected? ==> r == p
  {
    match Tick(p.gate, reply)
    case Kept(g) => p.(gate := g)
    case Revoked(_, store) => Load(store, afterReload)
  }

  /** The main process's trimming and prefixing leave a normalised URL alone. */
  lemma NormalizedIsFinal(raw: string, parses: UrlParser)
    requires NormalizeUrl(Some(raw), parses).Some?
    ensures FinalUrl(NormalizeUrl(Some(raw), parses).value) == NormalizeUrl(Some(raw), parses).value
  {
    var u := NormalizeUrl(Some(raw), parses).value;
    TrimPadded([], u, []);
    assert [] + u + [] == u;
  }

  /**
    What the renderer sends in native mode (see `CreateHandler.OnCreate`), the
    main process accepts as is: the normalised URL is already trimmed and
    schemed and the count is positive, so exactly that many windows open on
    exactly that URL, in pairwise distinct partitions, unless the count is
    beyond the 2^53 the main process's loop index can reach.
   */
  lemma NativeRequestAccepted(raw: string, countText: string, parses: UrlParser, clock: nat -> nat)
    requires NormalizeUrl(Some(raw), parses).Some?
    ensures var u := NormalizeUrl(Some(raw), parses).value;
            var n := RequestedTotal(countText);
            var o := OpenMultipleWindows(Some(u), Finite(n), clock);
            && (n <= LoopLimit ==> && o.Returned? && o.reply.ok
                                   && |o.windows| == n
                                   && (forall i :: 0 <= i < |o.windows| ==> o.windows[i].url == u)
                                   && DistinctPartitions(o.windows))
            && (n > LoopLimit ==> o == Endless)
  {
    NormalizedIsFinal(raw, parses);
    var u := NormalizeUrl(Some(raw), parses).value;
    AcceptsFinalUrl(u, RequestedTotal(countText), clock);
  }
}

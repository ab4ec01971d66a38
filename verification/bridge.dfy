/**
  The main process's `open-multiple-windows` handler: validate the request,
  put a scheme on the URL, and open `count` windows, each in a partition of
  its own.
 */
module Bridge {
  import opened Options
  import opened Text
  import opened Numbers
  import opened Sessions

  /** A top-level window: the partition it was bound to and the URL it loads. */
  datatype Window = Window(partition: string, url: string)

  /** The `{ok, message}` object the handler resolves to. */
  datatype Reply = Reply(ok: bool, message: string)

  /**
    How the handler ends: it returns after opening some windows, or, for an
    infinite count, its loop never stops opening them.
   */
  datatype Outcome = Returned(reply: Reply, windows: seq<Window>) | Endless

  const InvalidRequestText := "URL o cantidad inv\U{00E1}lida."

  function OpenedText(total: nat, url: string): string
  {
    "Se abrieron " + Dec(total) + " ventanas hacia " + url
  }

  /** The URL as the handler loads it: trimmed, with "https://" unless already schemed. */
  function FinalUrl(url: string): (u: string)
    ensures HasHttpScheme(u)
    ensures HasHttpScheme(Trim(url)) ==> u == Trim(url)
    ensures !HasHttpScheme(Trim(url)) ==> u == SecurePrefix + Trim(url)
  {
    WithScheme(Trim(url))
  }

  /** Running the prefixing step on its own output changes nothing. */
  lemma FinalUrlIdempotent(url: string)
    ensures FinalUrl(FinalUrl(url)) == FinalUrl(url)
  {
    if |Trim(url)| > 0 {
      WithSchemeTrimmed(Trim(url));
    } else {
      // A blank URL becomes the bare scheme, which is trimmed and schemed already.
      TrimPadded([], SecurePrefix, []);
      assert [] + SecurePrefix + [] == SecurePrefix;
    }
  }

  /** The partition of iteration `i`: `persist:session-${now}-${i}`. */
  function WindowPartition(now: nat, i: nat): string
  {
    PartitionName(Stamped(now, i))
  }

  /**
    A window's partition reads back as the clock reading and loop index it was
    named after: the same `persist:session-<now>-<n>` form the renderer's
    fallback ids give.
   */
  lemma WindowPartitionDecodes(now: nat, i: nat)
    ensures var p := WindowPartition(now, i);
            && |p| >= |PartitionPrefix| && p[..|PartitionPrefix|] == PartitionPrefix
            && StampOf(p[|PartitionPrefix|..]) == Some(now) && SerialOf(p[|PartitionPrefix|..]) == Some(i)
            && p == Partition(Session(Stamp(now, i), []))
  {
    StampOfStamped(now, i);
    SerialOfStamped(now, i);
  }

  /**
    The windows the loop opens for `n` iterations; iteration `i` reads the
    clock as `clock(i)`.
   */
  function Windows(url: string, n: nat, clock: nat -> nat): (ws: seq<Window>)
    ensures |ws| == n
    ensures forall i :: 0 <= i < n ==> ws[i].url == url && ws[i].partition == WindowPartition(clock(i), i)
  {
    if n == 0 then [] else Windows(url, n - 1, clock) + [Window(WindowPartition(clock(n - 1), n - 1), url)]
  }

  predicate DistinctPartitions(ws: seq<Window>)
  {
    forall i, j :: 0 <= i < j < |ws| ==> ws[i].partition != ws[j].partition
  }

  /** Within one batch no two windows share a partition, even when the clock does not move. */
  lemma WindowPartitionsDistinct(url: string, n: nat, clock: nat -> nat)
    ensures DistinctPartitions(Windows(url, n, clock))
  {
    var ws := Windows(url, n, clock);
    forall i, j | 0 <= i < j < n
      ensures ws[i].partition != ws[j].partition
    {
      StampedDistinct(clock(i), i, clock(j), j);
      PartitionNameInjective(Stamped(clock(i), i), Stamped(clock(j), j));
    }
  }

  /** `!total || total <= 0` for `total = Number(count)`. */
  predicate BadCount(total: Num)
  {
    match total
    case NaN => true
    case Finite(v) => v <= 0
    case Infinite(negative) => negative
  }

  /**
    2^53, where the loop's `i++` stops advancing: `2^53 + 1` is not a double,
    and the sum rounds back to `2^53`. A loop bound above it is never reached.
   */
  const LoopLimit: nat := 0x20_0000_0000_0000

  /**
    The handler. A falsy URL or a count that is NaN, zero or negative is
    answered with the invalid-request message and opens nothing. A count the
    loop index cannot reach, infinite or above 2^53, keeps opening windows
    forever. Otherwise it opens exactly `count` windows on the final URL and
    reports the count and URL back.
   */
  function OpenMultipleWindows(url: Option<string>, count: Num, clock: nat -> nat): (o: Outcome)
    ensures !Truthy(url) || BadCount(count) ==> o == Returned(Reply(false, InvalidRequestText), [])
    ensures Truthy(url) && (count == Infinite(false) || (count.Finite? && count.value > LoopLimit)) ==> o == Endless
    ensures Truthy(url) && count.Finite? && 0 < count.value <= LoopLimit ==>
              && o.Returned? && o.reply.ok
              && |o.windows| == count.value
              && (forall i :: 0 <= i < |o.windows| ==> o.windows[i].url == FinalUrl(url.value))
              && DistinctPartitions(o.windows)
              && o.reply.message == OpenedText(count.value, FinalUrl(url.value))
  {
    if !Truthy(url) || BadCount(count) then Returned(Reply(false, InvalidRequestText), [])
    else if count.Infinite? || count.value > LoopLimit then Endless
    else
      var finalUrl := FinalUrl(url.value);
      WindowPartitionsDistinct(finalUrl, count.value, clock);
      Returned(Reply(true, OpenedText(count.value, finalUrl)), Windows(finalUrl, count.value, clock))
  }

  /**
    A URL that is already final and a positive count the loop can reach open
    exactly that batch; a larger count never returns.
   */
  lemma AcceptsFinalUrl(u: string, n: nat, clock: nat -> nat)
    requires |u| > 0 && FinalUrl(u) == u && n >= 1
    ensures var o := OpenMultipleWindows(Some(u), Finite(n), clock);
            && (n <= LoopLimit ==> o == Returned(Reply(true, OpenedText(n, u)), Windows(u, n, clock))
                                   && DistinctPartitions(o.windows))
            && (n > LoopLimit ==> o == Endless)
  {
  }
}

/**
 * `FallbackDownloader`: the single-connection worker used when aria2 is not
 * running. Its HTTP stream is an input (the announced `Content-Length` and
 * the lengths of the chunks the stream yields); what is modelled is the
 * byte count, the progress signals it emits, and the cooperative cancel flag.
 */
module Fallback {
  import opened Progress

  /** Bytes counted after the given chunks. */
  function Downloaded(chunks: seq<nat>): nat {
    if chunks == [] then 0 else Downloaded(chunks[..|chunks| - 1]) + chunks[|chunks| - 1]
  }

  /** The progress signals emitted for the given chunks: one per non-empty chunk. */
  function Emitted(total: nat, chunks: seq<nat>): seq<nat> {
    if chunks == [] then []
    else
      var last := chunks[|chunks| - 1];
      Emitted(total, chunks[..|chunks| - 1])
      + (if last == 0 then [] else [Percent(Downloaded(chunks), total)])
  }

  /** Number of non-empty chunks. */
  function NonEmpty(chunks: seq<nat>): nat {
    if chunks == [] then 0
    else NonEmpty(chunks[..|chunks| - 1]) + (if chunks[|chunks| - 1] == 0 then 0 else 1)
  }

  /** The number of chunks the loop handles before it sees the cancel flag. */
  function Handled(cancelledBefore: bool, cancelAt: nat, count: nat): (n: nat)
    ensures n <= count
  {
    if cancelledBefore then 0 else if cancelAt < count then cancelAt else count
  }

  class FallbackDownloader {
    const url: string
    const dest: string
    /** The `_cancel` flag. */
    var cancelRequested: bool

    constructor(url: string, dest: string)
      ensures this.url == url && this.dest == dest && !cancelRequested
    {
      this.url := url;
      this.dest := dest;
      cancelRequested := false;
    }

    method Cancel()
      modifies this
      ensures cancelRequested
    {
      cancelRequested := true;
    }

    /**
     * The chunk loop of `run`. `total` is the announced length (0 when absent),
     * `chunks` the chunk lengths the stream yields, and `cancelAt` the number of
     * chunks handled before another thread's `cancel()` lands (at least
     * `|chunks|` when it does not land during the loop).
     */
    method Run(total: nat, chunks: seq<nat>, cancelAt: nat) returns (emitted: seq<nat>, downloaded: nat)
      modifies this
      ensures var n := Handled(old(cancelRequested), cancelAt, |chunks|);
              emitted == Emitted(total, chunks[..n]) && downloaded == Downloaded(chunks[..n])
      ensures cancelRequested == (old(cancelRequested) || cancelAt < |chunks|)
    {
      emitted, downloaded := [], 0;
      var k := 0;
      while k < |chunks|
        invariant k <= |chunks|
        invariant !cancelRequested || (old(cancelRequested) && k == 0)
        invariant old(cancelRequested) ==> cancelRequested && k == 0
        invariant k <= cancelAt || old(cancelRequested)
        invariant emitted == Emitted(total, chunks[..k]) && downloaded == Downloaded(chunks[..k])
      {
        if k >= cancelAt {
          cancelRequested := true;
        }
        if cancelRequested {
          return;
        }
        assert chunks[..k + 1][..k] == chunks[..k];
        if chunks[k] > 0 {
          downloaded := downloaded + chunks[k];
          emitted := emitted + [Percent(downloaded, total)];
        }
        k := k + 1;
      }
      assert chunks[..|chunks|] == chunks;
    }
  }

  /** Every signal is at most the last percentage, and the signals never decrease. */
  lemma {:induction false} EmittedSorted(total: nat, chunks: seq<nat>)
    ensures forall i :: 0 <= i < |Emitted(total, chunks)| ==>
              Emitted(total, chunks)[i] <= Percent(Downloaded(chunks), total)
    ensures forall i, j :: 0 <= i <= j < |Emitted(total, chunks)| ==>
              Emitted(total, chunks)[i] <= Emitted(total, chunks)[j]
  {
    if chunks != [] {
      var init := chunks[..|chunks| - 1];
      EmittedSorted(total, init);
      PercentMonotone(Downloaded(init), Downloaded(chunks), total);
    }
  }

  /**
   * With no more bytes than announced, every signal is a percentage in 0..100;
   * without a `Content-Length` (`total == 0`) every signal is 0.
   */
  lemma EmittedAtMost100(total: nat, chunks: seq<nat>)
    requires total == 0 || Downloaded(chunks) <= total
    ensures forall i :: 0 <= i < |Emitted(total, chunks)| ==> Emitted(total, chunks)[i] <= 100
    ensures total == 0 ==> forall i :: 0 <= i < |Emitted(total, chunks)| ==> Emitted(total, chunks)[i] == 0
  {
    EmittedSorted(total, chunks);
    if total > 0 {
      PercentAtMost100(Downloaded(chunks), total);
    }
  }

  /** One signal per non-empty chunk; the last one is the percentage of all bytes counted. */
  lemma {:induction false} EmittedCount(total: nat, chunks: seq<nat>)
    ensures |Emitted(total, chunks)| == NonEmpty(chunks)
    ensures NonEmpty(chunks) > 0 ==>
              Emitted(total, chunks)[|Emitted(total, chunks)| - 1] == Percent(Downloaded(chunks), total)
  {
    if chunks != [] {
      var init := chunks[..|chunks| - 1];
      EmittedCount(total, init);
      if chunks[|chunks| - 1] == 0 {
        assert Emitted(total, chunks) == Emitted(total, init) && Downloaded(chunks) == Downloaded(init);
      }
    }
  }

  /** Stopping early only truncates the signals: those of a prefix are a prefix of the whole. */
  lemma {:induction false} EmittedPrefix(total: nat, chunks: seq<nat>, n: nat)
    requires n <= |chunks|
    ensures Emitted(total, chunks[..n]) <= Emitted(total, chunks)
    decreases |chunks|
  {
    if n < |chunks| {
      var init := chunks[..|chunks| - 1];
      assert init[..n] == chunks[..n];
      EmittedPrefix(total, init, n);
    } else {
      assert chunks[..n] == chunks;
    }
  }
}

/**
 * The per-item record of `MainWindow` (`url`, `filename`, the status and
 * progress cells, `aria_gid`, `download_thread`) and what one backend answer
 * does to it. Backend answers are values: `Dispatch` is what `_start_next`
 * learns from `is_running()` and `add_uri`, `TellStatus` what `poll_status`
 * learns from `tell_status`.
 */
module Tasks {
  import opened Wrappers
  import opened Progress
  import UrlList

  /** Identity of one item record (the Python dict object). */
  type Id = nat

  /** The status cell: the fixed words, and `"<status> @ <speed>/s"` for any other aria2 status. */
  datatype Status = Queued | Downloading | Complete | Error | Cancelled | Reported(state: string)

  /**
   * The `download_thread` entry, seen from the window: the fallback worker's
   * `url`, `dest` and `_cancel` flag. This is the window's view of a
   * `Fallback.FallbackDownloader`; the worker runs on its own thread, so the
   * model does not connect this flag to a `Run` of that class (what `Run`
   * does once the flag is set is stated there, through its `cancelAt` input).
   */
  datatype Worker = Worker(url: string, dest: string, cancelRequested: bool)

  datatype Item = Item(url: string, filename: string, status: Status, progress: nat,
                       gid: Option<string>, worker: Option<Worker>)

  /** The record `populate_table` creates for a URL whose parsed path is `path`. */
  function NewItem(url: string, path: string): (it: Item)
    ensures it.filename == UrlList.Filename(url, path) && it.url == url
    ensures it.status == Queued && it.progress == 0 && it.gid == None && it.worker == None
  {
    Item(url, UrlList.Filename(url, path), Queued, 0, None, None)
  }

  /** The reply of `add_uri`: a `result` (the gid), no `result`, or an exception. */
  datatype AddUri = Gid(gid: string) | NoResult | Raised

  /** What one `_start_next` call meets: aria2 running (with the `add_uri` reply) or not. */
  datatype Dispatch = ViaAria(reply: AddUri) | ViaFallback

  /** The reply of `tell_status`: an exception, an empty `result`, or a status record. */
  datatype TellStatus = TellRaised | NoStatus | Report(state: string, completed: nat, total: nat)

  /** `if not gid`: a gid that is absent or the empty string is skipped. */
  predicate HasGid(it: Item) {
    it.gid.Some? && it.gid.value != ""
  }

  /** `QProgressBar.setValue(p)` on the range 0..100: a value outside the range is ignored. */
  function ShowProgress(shown: nat, p: nat): (v: nat)
    ensures p <= 100 ==> v == p
    ensures p > 100 ==> v == shown
  {
    if p <= 100 then p else shown
  }

  /** The head item after `_start_next` handed it to the backend, with `destDir` the download directory. */
  function Dispatched(it: Item, d: Dispatch, destDir: string): Item {
    match d
    case ViaAria(Gid(g)) => it.(gid := Some(g), status := Downloading)
    case ViaAria(NoResult) => it.(gid := None, status := Downloading)
    case ViaAria(Raised) => it.(status := Error)
    case ViaFallback =>
      it.(worker := Some(Worker(it.url, UrlList.Join(destDir, it.filename), false)), status := Downloading)
  }

  /**
   * A dispatch keeps the item's url, filename and progress; an `add_uri`
   * exception marks it `error` and leaves gid and worker as they were; a reply
   * stores its `result` (or none) as the gid; the fallback attaches a fresh,
   * uncancelled worker for `join(destDir, filename)`.
   */
  lemma DispatchedSpec(it: Item, d: Dispatch, destDir: string)
    ensures var r := Dispatched(it, d, destDir);
            r.url == it.url && r.filename == it.filename && r.progress == it.progress
            && r.status == (if d == ViaAria(Raised) then Error else Downloading)
            && (d.ViaAria? ==> r.worker == it.worker)
            && (d == ViaAria(Raised) ==> r.gid == it.gid)
            && (d == ViaAria(NoResult) ==> r.gid == None)
            && (d.ViaAria? && d.reply.Gid? ==> r.gid == Some(d.reply.gid))
            && (d.ViaFallback? ==>
                  r.gid == it.gid && r.worker == Some(Worker(it.url, UrlList.Join(destDir, it.filename), false)))
  {
  }

  /** What polling one active item decides: leave it, update it in place, or update it and free its slot. */
  datatype Effect = Keep | Touch(item: Item) | Release(item: Item)

  /** The aria2 branch of `poll_status` for one item. */
  function AriaEffect(it: Item, t: TellStatus): (e: Effect)
    ensures e.Keep? <==> !HasGid(it) || !t.Report?
    ensures e.Release? <==> HasGid(it) && t.Report? && (t.state == "complete" || t.state == "error")
    ensures e.Release? ==> e.item.status == (if t.state == "complete" then Complete else Error)
    ensures e.Touch? ==> e.item.status == Reported(t.state)
    ensures !e.Keep? ==> e.item == it.(status := e.item.status,
                                       progress := ShowProgress(it.progress, Percent(t.completed, t.total)))
  {
    if !HasGid(it) then Keep
    else match t
      case TellRaised => Keep
      case NoStatus => Keep
      case Report(state, completed, total) =>
        var shown := it.(progress := ShowProgress(it.progress, Percent(completed, total)));
        if state == "complete" then Release(shown.(status := Complete))
        else if state == "error" then Release(shown.(status := Error))
        else Touch(shown.(status := Reported(state)))
  }

  /** The fallback branch of `poll_status` for one item whose thread is `alive` or not. */
  function FallbackEffect(it: Item, alive: bool): (e: Effect)
    ensures e.Keep? || e.Release?
    ensures e.Release? <==> it.worker.Some? && !alive
    ensures e.Release? ==> e.item == it.(status := Complete, progress := 100)
  {
    if it.worker.Some? && !alive then Release(it.(status := Complete, progress := 100)) else Keep
  }

  /** The record after an effect. */
  function Applied(e: Effect, it: Item): Item {
    match e
    case Keep => it
    case Touch(next) => next
    case Release(next) => next
  }

  /** `it['status_item'].setText('cancelled')` after `fd.cancel()`, for an item with a worker. */
  function CancelItem(it: Item): (r: Item)
    requires it.worker.Some?
    ensures r.status == Cancelled && r.worker.Some? && r.worker.value.cancelRequested
    ensures r.url == it.url && r.filename == it.filename && r.progress == it.progress && r.gid == it.gid
    ensures r.worker.value.url == it.worker.value.url && r.worker.value.dest == it.worker.value.dest
  {
    it.(status := Cancelled, worker := Some(it.worker.value.(cancelRequested := true)))
  }
}

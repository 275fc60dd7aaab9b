/**
 * `MainWindow` as an object: the fields its handlers update in place, and
 * one method per handler. Each method is proved to move `State()` exactly as
 * the corresponding function of `Orchestrator` does, so the properties
 * proved there hold of the object.
 */
module Window {
  import opened Wrappers
  import opened Lists
  import opened Tasks
  import opened Progress
  import UrlList
  import LinkResolver
  import O = Orchestrator

  class MainWindow {
    var records: map<Id, Item>
    var items: seq<Id>
    var remaining: seq<Id>
    var active: seq<Id>
    var parallel: nat
    var destDir: Option<string>
    const cwd: string
    var polling: bool
    var nextId: Id

    function State(): O.Manager
      reads this
    {
      O.Manager(records, items, remaining, active, parallel, destDir, cwd, polling, nextId)
    }

    ghost predicate Valid()
      reads this
    {
      O.Valid(State())
    }

    /** `__init__`: no items, empty queues, timer stopped. */
    constructor(cwd: string)
      ensures Valid() && State() == O.Initial(cwd)
    {
      records := map[];
      items := [];
      remaining := [];
      active := [];
      parallel := 0;
      destDir := None;
      this.cwd := cwd;
      polling := false;
      nextId := 0;
    }

    /** `on_open_file`, the file's lines and each URL's parsed path being given. */
    method OnOpenFile(lines: seq<string>, pathOf: string -> string)
      requires Valid()
      modifies this
      ensures Valid() && State() == O.OpenList(old(State()), lines, pathOf)
    {
      var urls := UrlList.ParseUrlList(lines);
      if urls == [] {
        return;
      }
      PopulateTable(urls, pathOf);
    }

    /** `populate_table`: replace the table by one fresh record per URL. */
    method PopulateTable(urls: seq<string>, pathOf: string -> string)
      requires Valid()
      modifies this
      ensures Valid() && State() == O.Populate(old(State()), urls, pathOf)
    {
      items := [];
      for k := 0 to |urls|
        invariant O.PopulateFrom(State(), urls[k..], pathOf) == O.Populate(old(State()), urls, pathOf)
      {
        ghost var before := State();
        O.PopulateFromStep(before, urls[k..], pathOf);
        assert urls[k..][1..] == urls[k + 1..];
        records := records[nextId := NewItem(urls[k], pathOf(urls[k]))];
        items := items + [nextId];
        nextId := nextId + 1;
        assert State() == O.AddItem(before, urls[k], pathOf);
      }
      O.PopulateShape(old(State()), urls, pathOf);
    }

    /** `_start_next`, meeting backend answer `d`: pop the FIFO head, dispatch it, append it to `active`. */
    method StartNext(d: Dispatch)
      modifies this
      ensures State() == O.StartNext(old(State()), d)
    {
      if remaining == [] {
        return;
      }
      var x := remaining[0];
      remaining := remaining[1..];
      var dir := if destDir.Some? then destDir.value else cwd;
      if x in records {
        records := records[x := Dispatched(records[x], d, dir)];
      }
      active := active + [x];
    }

    /**
     * `on_start`, with the spin box value, the chosen directory (`""` when
     * the dialog is cancelled), the checked rows, the page fetches of
     * `get_direct_url` and the backend answer of each `_start_next` call.
     */
    method OnStart(parallel: nat, chosenDir: string, checked: set<Id>,
                   fetch: string -> LinkResolver.Fetch, dispatch: nat -> Dispatch)
      requires Valid()
      modifies this
      ensures Valid() && State() == O.OnStart(old(State()), parallel, chosenDir, checked, fetch, dispatch)
    {
      if chosenDir == "" {
        return;
      }
      ghost var s := State();
      destDir := Some(chosenDir);
      var selected := O.Select(items, checked);
      if selected == [] {
        return;
      }
      O.ReadyValid(s, parallel, chosenDir, checked, fetch);
      ResolveLinks(selected, fetch);
      remaining := selected;
      active := [];
      this.parallel := parallel;
      polling := true;
      assert State() == O.Ready(s, parallel, chosenDir, selected, fetch);
      DispatchFirst(O.Min(parallel, |selected|), dispatch);
    }

    /** `for _ in range(n): self._start_next()`, the `k`-th call meeting `dispatch(k)`. */
    method DispatchFirst(n: nat, dispatch: nat -> Dispatch)
      requires Valid() && n <= |remaining| && |active| + n <= parallel
      modifies this
      ensures Valid() && State() == O.DispatchN(old(State()), n, dispatch, 0)
    {
      for k := 0 to n
        invariant O.DispatchN(State(), n - k, dispatch, k) == O.DispatchN(old(State()), n, dispatch, 0)
      {
        O.DispatchNStep(State(), n - k, dispatch, k);
        StartNext(dispatch(k));
      }
      O.DispatchNValid(old(State()), n, dispatch, 0);
    }

    /** The resolving loop of `on_start`: each selected item gets its direct link and status `'queued'`. */
    method ResolveLinks(selected: seq<Id>, fetch: string -> LinkResolver.Fetch)
      modifies this
      ensures records == O.ResolveAll(old(records), selected, fetch)
      ensures items == old(items) && remaining == old(remaining) && active == old(active)
      ensures parallel == old(parallel) && destDir == old(destDir) && polling == old(polling) && nextId == old(nextId)
    {
      for k := 0 to |selected|
        invariant O.ResolveAll(records, selected[k..], fetch) == O.ResolveAll(old(records), selected, fetch)
        invariant items == old(items) && remaining == old(remaining) && active == old(active)
        invariant parallel == old(parallel) && destDir == old(destDir) && polling == old(polling) && nextId == old(nextId)
      {
        assert selected[k..][1..] == selected[k + 1..];
        var x := selected[k];
        if x in records {
          records := records[x := O.Resolved(records[x], fetch)];
        }
      }
    }

    /** The aria2 branch of `poll_status` for one item; returns the updated count of `_start_next` calls. */
    method PollAriaItem(x: Id, obs: O.Observation, dispatch: nat -> Dispatch, calls: nat) returns (next: nat)
      requires Valid() && x in active && obs.ariaRunning
      modifies this
      ensures Valid() && (State(), next) == O.Step(old(State()), x, obs, dispatch, calls)
    {
      O.StepValid(State(), x, obs, dispatch, calls);
      next := calls;
      var it := records[x];
      if !HasGid(it) {
        return;
      }
      match obs.tell(x)
      case TellRaised =>
      case NoStatus =>
      case Report(state, completed, total) =>
        it := it.(progress := ShowProgress(it.progress, Percent(completed, total)));
        if state == "complete" || state == "error" {
          it := it.(status := if state == "complete" then Complete else Error);
          O.ReleaseValid(State(), x, it);
          records := records[x := it];
          active := RemoveFirst(active, x);
          StartNext(dispatch(calls));
          next := calls + 1;
        } else {
          records := records[x := it.(status := Reported(state))];
        }
    }

    /** The fallback branch of `poll_status` for one item; returns the updated count of `_start_next` calls. */
    method PollFallbackItem(x: Id, obs: O.Observation, dispatch: nat -> Dispatch, calls: nat) returns (next: nat)
      requires Valid() && x in active && !obs.ariaRunning
      modifies this
      ensures Valid() && (State(), next) == O.Step(old(State()), x, obs, dispatch, calls)
    {
      O.StepValid(State(), x, obs, dispatch, calls);
      next := calls;
      var it := records[x];
      if it.worker.Some? && x !in obs.alive {
        it := it.(status := Complete, progress := 100);
        O.ReleaseValid(State(), x, it);
        records := records[x := it];
        active := RemoveFirst(active, x);
        StartNext(dispatch(calls));
        next := calls + 1;
      }
    }

    /** `poll_status`, run by the timer while it is started: one pass over a snapshot of `active`. */
    method PollStatus(obs: O.Observation, dispatch: nat -> Dispatch)
      requires Valid() && polling
      modifies this
      ensures Valid() && State() == O.Poll(old(State()), obs, dispatch)
    {
      var snapshot := active;
      var calls := 0;
      for j := 0 to |snapshot|
        invariant O.PollReady(State(), snapshot[j..])
        invariant O.PollFrom(State(), snapshot[j..], obs, dispatch, calls) == O.PollFrom(old(State()), snapshot, obs, dispatch, 0)
      {
        var x := snapshot[j];
        O.StepKeepsSnapshot(State(), snapshot[j..], obs, dispatch, calls);
        assert snapshot[j..][1..] == snapshot[j + 1..];
        if obs.ariaRunning {
          calls := PollAriaItem(x, obs, dispatch, calls);
        } else {
          calls := PollFallbackItem(x, obs, dispatch, calls);
        }
      }
    }

    /** `on_stop_all`: cancel every table item that has a worker, then stop the timer. */
    method OnStopAll()
      requires Valid()
      modifies this
      ensures Valid() && State() == O.StopAll(old(State()))
    {
      ghost var s := State();
      var ids := items;
      for k := 0 to |ids|
        invariant O.CancelAll(records, ids[k..]) == O.CancelAll(s.records, ids)
        invariant items == s.items && remaining == s.remaining && active == s.active && parallel == s.parallel
        invariant destDir == s.destDir && polling == s.polling && nextId == s.nextId
      {
        assert ids[k..][1..] == ids[k + 1..];
        ghost var before := records;
        var x := ids[k];
        if x in records && records[x].worker.Some? {
          records := records[x := CancelItem(records[x])];
        }
        assert records == O.CancelOne(before, x);
      }
      polling := false;
      O.StopAllSpec(s);
    }
  }
}

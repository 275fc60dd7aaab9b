/**
 * The download dispatch state machine of `MainWindow`, as functions on a
 * `Manager` value: `populate_table`, `on_start`, `_start_next`,
 * `poll_status` and `on_stop_all`, and the properties they keep.
 *
 * Item records live in `records`, keyed by identity; `items` (the table),
 * `remaining` (the FIFO) and `active` hold identities, so that one record
 * seen from several lists is one record, as with the Python dicts.
 */
module Orchestrator {
  import opened Wrappers
  import opened Lists
  import opened Tasks
  import UrlList
  import LinkResolver

  datatype Manager = Manager(
    records: map<Id, Item>,
    items: seq<Id>,
    remaining: seq<Id>,
    active: seq<Id>,
    parallel: nat,
    destDir: Option<string>,
    cwd: string,
    polling: bool,
    nextId: Id)

  /** What every reachable state satisfies; `|active| <= parallel` is the concurrency bound. */
  predicate Valid(s: Manager) {
    FreshIds(s)
    && (forall x :: x in s.items ==> x in s.records)
    && (forall x :: x in s.remaining ==> x in s.records)
    && (forall x :: x in s.active ==> x in s.records)
    && NoDuplicates(s.items) && NoDuplicates(s.remaining) && NoDuplicates(s.active)
    && Disjoint(s.remaining, s.active)
    && |s.active| <= s.parallel
    && (forall x :: x in s.records ==> s.records[x].progress <= 100)
  }

  /** Every identity handed out so far lies below `nextId`. */
  predicate FreshIds(s: Manager) {
    forall x :: x in s.records ==> x < s.nextId
  }

  /** The part of `Valid` the FIFO's own steps rely on. */
  predicate QueueIndexed(s: Manager) {
    NoDuplicates(s.remaining) && forall x :: x in s.remaining ==> x in s.records
  }

  function Initial(cwd: string): (s: Manager)
    ensures Valid(s) && s.items == [] && s.remaining == [] && s.active == [] && !s.polling
  {
    Manager(map[], [], [], [], 0, None, cwd, false, 0)
  }

  function Min(a: nat, b: nat): nat {
    if a <= b then a else b
  }

  /** `getattr(self, 'last_dest_dir', os.getcwd())`. */
  function DestDir(s: Manager): string {
    if s.destDir.Some? then s.destDir.value else s.cwd
  }

  // ---------------------------------------------------------------- populate_table

  function AddItem(s: Manager, url: string, pathOf: string -> string): Manager {
    s.(records := s.records[s.nextId := NewItem(url, pathOf(url))],
       items := s.items + [s.nextId],
       nextId := s.nextId + 1)
  }

  function PopulateFrom(s: Manager, urls: seq<string>, pathOf: string -> string): Manager
    decreases |urls|
  {
    if urls == [] then s else PopulateFrom(AddItem(s, urls[0], pathOf), urls[1..], pathOf)
  }

  /** `populate_table(urls)`: the table is emptied, then rebuilt from the URLs. */
  function Populate(s: Manager, urls: seq<string>, pathOf: string -> string): Manager {
    PopulateFrom(s.(items := []), urls, pathOf)
  }

  /** `on_open_file` after the dialog: parse the file's lines; no URL, nothing changes; otherwise populate the table. */
  function OpenList(s: Manager, lines: seq<string>, pathOf: string -> string): Manager {
    var urls := UrlList.ParseUrlList(lines);
    if urls == [] then s else Populate(s, urls, pathOf)
  }

  /** One step of `populate_table`'s loop. */
  lemma PopulateFromStep(s: Manager, urls: seq<string>, pathOf: string -> string)
    requires urls != []
    ensures PopulateFrom(s, urls, pathOf) == PopulateFrom(AddItem(s, urls[0], pathOf), urls[1..], pathOf)
  {
  }

  /** Adding one URL gives it the next fresh identity and keeps every invariant. */
  lemma AddItemSpec(s: Manager, url: string, pathOf: string -> string)
    requires Valid(s)
    ensures var r := AddItem(s, url, pathOf);
            Valid(r) && s.nextId !in s.records
            && r.records == s.records[s.nextId := NewItem(url, pathOf(url))]
  {
    assert s.nextId !in s.items;
  }

  /** Populating appends the identities `nextId ..` in order and leaves the run's queues and settings alone. */
  lemma {:induction false} PopulateIds(s: Manager, urls: seq<string>, pathOf: string -> string)
    ensures var r := PopulateFrom(s, urls, pathOf);
            r.nextId == s.nextId + |urls|
            && r.remaining == s.remaining && r.active == s.active && r.parallel == s.parallel
            && r.destDir == s.destDir && r.cwd == s.cwd && r.polling == s.polling
            && |r.items| == |s.items| + |urls| && r.items[..|s.items|] == s.items
            && (forall i :: |s.items| <= i < |r.items| ==> r.items[i] == s.nextId + (i - |s.items|))
    decreases |urls|
  {
    if urls != [] {
      var s1 := AddItem(s, urls[0], pathOf);
      PopulateIds(s1, urls[1..], pathOf);
      var r := PopulateFrom(s, urls, pathOf);
      assert r.items[..|s.items|] == s.items by {
        assert r.items[..|s1.items|][..|s.items|] == s.items;
      }
      forall i | |s.items| <= i < |r.items| ensures r.items[i] == s.nextId + (i - |s.items|) {
        if i == |s.items| {
          assert r.items[..|s1.items|][i] == s.nextId;
        }
      }
    }
  }

  /** Populating keeps every invariant. */
  lemma {:induction false} PopulateValid(s: Manager, urls: seq<string>, pathOf: string -> string)
    requires Valid(s)
    ensures Valid(PopulateFrom(s, urls, pathOf))
    decreases |urls|
  {
    if urls != [] {
      AddItemSpec(s, urls[0], pathOf);
      PopulateValid(AddItem(s, urls[0], pathOf), urls[1..], pathOf);
    }
  }

  /** Populating adds exactly the identities `nextId .. nextId + |urls|` to the records. */
  lemma {:induction false} PopulateKeys(s: Manager, urls: seq<string>, pathOf: string -> string)
    ensures var r := PopulateFrom(s, urls, pathOf);
            forall x :: x in r.records <==> x in s.records || s.nextId <= x < s.nextId + |urls|
    decreases |urls|
  {
    if urls != [] {
      var s1 := AddItem(s, urls[0], pathOf);
      PopulateKeys(s1, urls[1..], pathOf);
      assert forall x :: x in s1.records <==> x in s.records || x == s.nextId;
      assert s1.nextId + |urls[1..]| == s.nextId + |urls|;
    }
  }

  /** A record older than `nextId` is untouched by populating. */
  lemma {:induction false} PopulateKeeps(s: Manager, urls: seq<string>, pathOf: string -> string, y: Id)
    requires y in s.records && y < s.nextId
    ensures var r := PopulateFrom(s, urls, pathOf);
            y in r.records && r.records[y] == s.records[y]
    decreases |urls|
  {
    if urls != [] {
      PopulateKeeps(AddItem(s, urls[0], pathOf), urls[1..], pathOf, y);
    }
  }

  /** The `k`-th URL's record is stored under `nextId + k`. */
  lemma {:induction false} PopulateNew(s: Manager, urls: seq<string>, pathOf: string -> string, k: nat)
    requires k < |urls|
    ensures var r := PopulateFrom(s, urls, pathOf);
            s.nextId + k in r.records && r.records[s.nextId + k] == NewItem(urls[k], pathOf(urls[k]))
    decreases |urls|
  {
    var s1 := AddItem(s, urls[0], pathOf);
    if k == 0 {
      PopulateKeeps(s1, urls[1..], pathOf, s.nextId);
    } else {
      PopulateNew(s1, urls[1..], pathOf, k - 1);
      assert s1.nextId + (k - 1) == s.nextId + k && urls[1..][k - 1] == urls[k];
    }
  }

  /** Each new identity carries the record built from its URL; older records are untouched. */
  lemma PopulateRecords(s: Manager, urls: seq<string>, pathOf: string -> string)
    requires FreshIds(s)
    ensures var r := PopulateFrom(s, urls, pathOf);
            (forall x :: x in r.records <==> x in s.records || s.nextId <= x < s.nextId + |urls|)
            && (forall x :: x in s.records ==> r.records[x] == s.records[x])
            && (forall k :: 0 <= k < |urls| ==> r.records[s.nextId + k] == NewItem(urls[k], pathOf(urls[k])))
  {
    PopulateKeys(s, urls, pathOf);
    var r := PopulateFrom(s, urls, pathOf);
    forall x | x in s.records ensures r.records[x] == s.records[x] {
      PopulateKeeps(s, urls, pathOf, x);
    }
    forall k | 0 <= k < |urls| ensures r.records[s.nextId + k] == NewItem(urls[k], pathOf(urls[k])) {
      PopulateNew(s, urls, pathOf, k);
    }
  }

  /** A rebuilt table lists the new identities, each carrying the record built from its URL. */
  lemma PopulateTable(s: Manager, urls: seq<string>, pathOf: string -> string)
    requires FreshIds(s) && s.items == []
    ensures var r := PopulateFrom(s, urls, pathOf);
            |r.items| == |urls|
            && forall k :: 0 <= k < |urls| ==>
                 r.items[k] in r.records && r.records[r.items[k]] == NewItem(urls[k], pathOf(urls[k]))
  {
    PopulateIds(s, urls, pathOf);
    PopulateRecords(s, urls, pathOf);
    var r := PopulateFrom(s, urls, pathOf);
    forall k | 0 <= k < |urls|
      ensures r.items[k] in r.records && r.records[r.items[k]] == NewItem(urls[k], pathOf(urls[k]))
    {
      assert r.items[k] == s.nextId + k;
    }
  }

  /** Populating shows exactly the given URLs, one fresh record each, and keeps the run's queues. */
  lemma PopulateShape(s: Manager, urls: seq<string>, pathOf: string -> string)
    requires Valid(s)
    ensures var r := Populate(s, urls, pathOf);
            Valid(r) && r.remaining == s.remaining && r.active == s.active
            && |r.items| == |urls|
            && forall k :: 0 <= k < |urls| ==> r.records[r.items[k]] == NewItem(urls[k], pathOf(urls[k]))
  {
    var s0 := s.(items := []);
    PopulateValid(s0, urls, pathOf);
    PopulateIds(s0, urls, pathOf);
    PopulateTable(s0, urls, pathOf);
  }

  /** Opening a list shows exactly the URLs of its non-blank lines, stripped, in file order. */
  lemma OpenListShape(s: Manager, lines: seq<string>, pathOf: string -> string)
    requires Valid(s)
    ensures var r := OpenList(s, lines, pathOf);
            var urls := UrlList.ParseUrlList(lines);
            Valid(r) && r.remaining == s.remaining && r.active == s.active
            && (urls == [] ==> r == s)
            && (urls != [] ==>
                  |r.items| == |urls|
                  && forall k :: 0 <= k < |urls| ==> r.records[r.items[k]] == NewItem(urls[k], pathOf(urls[k])))
  {
    PopulateShape(s, UrlList.ParseUrlList(lines), pathOf);
  }

  // ---------------------------------------------------------------- _start_next

  /** `_start_next`: pop the head of the FIFO, hand it to the backend, append it to `active`. */
  function StartNext(s: Manager, d: Dispatch): Manager {
    if s.remaining == [] then s
    else
      var h := s.remaining[0];
      var recs := if h in s.records then s.records[h := Dispatched(s.records[h], d, DestDir(s))] else s.records;
      s.(records := recs, remaining := s.remaining[1..], active := s.active + [h])
  }

  /** With a free slot, `_start_next` keeps every invariant, in particular `|active| <= parallel`. */
  lemma StartNextValid(s: Manager, d: Dispatch)
    requires Valid(s) && (|s.active| < s.parallel || s.remaining == [])
    ensures Valid(StartNext(s, d))
  {
    if s.remaining != [] {
      var h := s.remaining[0];
      var r := StartNext(s, d);
      NoDuplicatesTail(s.remaining);
      DispatchedSpec(s.records[h], d, DestDir(s));
      assert h !in s.active;
      NoDuplicatesAppend(s.active, h);
      assert forall y :: y in r.records <==> y in s.records;
      assert forall y :: y in r.remaining ==> y in s.remaining && y != h;
      assert forall y :: y in r.active ==> y in s.active || y == h;
    }
  }

  /** `_start_next` moves the FIFO head to the end of `active` and changes only the head's record. */
  lemma StartNextEffect(s: Manager, d: Dispatch)
    requires QueueIndexed(s)
    ensures var r := StartNext(s, d);
            QueueIndexed(r) &&
            r.items == s.items && r.parallel == s.parallel && r.destDir == s.destDir && r.cwd == s.cwd
            && r.polling == s.polling && r.nextId == s.nextId && r.records.Keys == s.records.Keys
            && (s.remaining == [] ==> r == s)
            && (s.remaining != [] ==>
                  var h := s.remaining[0];
                  r.remaining == s.remaining[1..] && r.active == s.active + [h]
                  && r.records[h] == Dispatched(s.records[h], d, DestDir(s))
                  && (r.records[h].status == Downloading || r.records[h].status == Error)
                  && forall y :: y in s.records && y != h ==> r.records[y] == s.records[y])
  {
    if s.remaining != [] {
      NoDuplicatesTail(s.remaining);
      DispatchedSpec(s.records[s.remaining[0]], d, DestDir(s));
    }
  }

  /** `n` dispatches in a row, the `k`-th meeting backend answer `d(k)`. */
  function DispatchN(s: Manager, n: nat, d: nat -> Dispatch, k: nat): Manager
    decreases n
  {
    if n == 0 then s else DispatchN(StartNext(s, d(k)), n - 1, d, k + 1)
  }

  /** One step of the dispatch loop of `on_start`. */
  lemma DispatchNStep(s: Manager, n: nat, d: nat -> Dispatch, k: nat)
    requires n > 0
    ensures DispatchN(s, n, d, k) == DispatchN(StartNext(s, d(k)), n - 1, d, k + 1)
  {
  }

  /** What one dispatch does to the FIFO and the records, as the per-record dispatch lemmas need it. */
  lemma StartNextHead(s: Manager, d: Dispatch)
    requires QueueIndexed(s) && s.remaining != []
    ensures var r := StartNext(s, d);
            var h := s.remaining[0];
            QueueIndexed(r) && r.remaining == s.remaining[1..] && h !in r.remaining && DestDir(r) == DestDir(s)
            && h in r.records && r.records[h] == Dispatched(s.records[h], d, DestDir(s))
            && forall y :: y in s.records && y != h ==> y in r.records && r.records[y] == s.records[y]
  {
    NoDuplicatesTail(s.remaining);
  }

  /** `n` dispatches move the first `n` queued items, in FIFO order, to the end of `active`. */
  lemma {:induction false} DispatchNQueues(s: Manager, n: nat, d: nat -> Dispatch, k: nat)
    requires n <= |s.remaining|
    ensures var r := DispatchN(s, n, d, k);
            r.remaining == s.remaining[n..] && r.active == s.active + s.remaining[..n]
            && r.items == s.items && r.parallel == s.parallel && r.destDir == s.destDir && r.cwd == s.cwd
            && r.polling == s.polling && r.nextId == s.nextId
    decreases n
  {
    if n > 0 {
      var s1 := StartNext(s, d(k));
      assert s1.remaining == s.remaining[1..] && s1.active == s.active + [s.remaining[0]];
      DispatchNQueues(s1, n - 1, d, k + 1);
      PrefixStep(s.remaining, n - 1);
    }
  }

  /** With `n` free slots, `n` dispatches keep every invariant. */
  lemma {:induction false} DispatchNValid(s: Manager, n: nat, d: nat -> Dispatch, k: nat)
    requires Valid(s) && n <= |s.remaining| && |s.active| + n <= s.parallel
    ensures Valid(DispatchN(s, n, d, k))
    decreases n
  {
    if n > 0 {
      var s1 := StartNext(s, d(k));
      StartNextValid(s, d(k));
      DispatchNValid(s1, n - 1, d, k + 1);
    }
  }

  /** Dispatching keeps the set of records, and leaves the records of the still-queued items alone. */
  lemma {:induction false} DispatchNLater(s: Manager, n: nat, d: nat -> Dispatch, k: nat, i: nat)
    requires QueueIndexed(s) && n <= i < |s.remaining|
    ensures var r := DispatchN(s, n, d, k);
            (forall y :: y in r.records <==> y in s.records)
            && s.remaining[i] in r.records && r.records[s.remaining[i]] == s.records[s.remaining[i]]
    decreases n
  {
    if n > 0 {
      var s1 := StartNext(s, d(k));
      StartNextEffect(s, d(k));
      NoDuplicatesTail(s.remaining);
      assert s.remaining[i] == s1.remaining[i - 1] && s.remaining[i] != s.remaining[0];
      DispatchNLater(s1, n - 1, d, k + 1, i - 1);
    }
  }

  /** A record outside the FIFO is untouched by any number of dispatches. */
  lemma {:induction false} DispatchNUntouched(s: Manager, n: nat, d: nat -> Dispatch, k: nat, y: Id)
    requires y in s.records && y !in s.remaining
    ensures var r := DispatchN(s, n, d, k);
            y in r.records && r.records[y] == s.records[y]
    decreases n
  {
    if n > 0 {
      var s1 := StartNext(s, d(k));
      assert y in s1.records && s1.records[y] == s.records[y];
      if s.remaining != [] {
        assert y !in s1.remaining by {
          assert forall z :: z in s.remaining[1..] ==> z in s.remaining;
        }
      }
      DispatchNUntouched(s1, n - 1, d, k + 1, y);
    }
  }

  /** The `i`-th dispatched item, queued once, meets backend answer `d(k + i)`. */
  lemma {:induction false} DispatchNRecord(s: Manager, n: nat, d: nat -> Dispatch, k: nat, i: nat)
    requires i < n <= |s.remaining| && s.remaining[i] in s.records
    requires forall j :: 0 <= j < |s.remaining| && j != i ==> s.remaining[j] != s.remaining[i]
    ensures var r := DispatchN(s, n, d, k);
            var y := s.remaining[i];
            y in r.records && r.records[y] == Dispatched(s.records[y], d(k + i), DestDir(s))
    decreases n
  {
    var y := s.remaining[i];
    var s1 := StartNext(s, d(k));
    assert s1.remaining == s.remaining[1..] && DestDir(s1) == DestDir(s);
    assert forall j :: 0 <= j < |s1.remaining| ==> s1.remaining[j] == s.remaining[j + 1];
    if i == 0 {
      assert y !in s1.remaining;
      DispatchNUntouched(s1, n - 1, d, k + 1, y);
    } else {
      assert y != s.remaining[0] && y == s1.remaining[i - 1];
      assert y in s1.records && s1.records[y] == s.records[y];
      DispatchNRecord(s1, n - 1, d, k + 1, i - 1);
      var j := i - 1;
      assert k + 1 + j == k + i;
    }
  }

  lemma DispatchNRecords(s: Manager, n: nat, d: nat -> Dispatch, k: nat)
    requires QueueIndexed(s) && n <= |s.remaining|
    ensures var r := DispatchN(s, n, d, k);
            forall i :: 0 <= i < n ==>
              s.remaining[i] in r.records
              && r.records[s.remaining[i]] == Dispatched(s.records[s.remaining[i]], d(k + i), DestDir(s))
  {
    forall i | 0 <= i < n
      ensures s.remaining[i] in DispatchN(s, n, d, k).records
      ensures DispatchN(s, n, d, k).records[s.remaining[i]] == Dispatched(s.records[s.remaining[i]], d(k + i), DestDir(s))
    {
      DispatchNRecord(s, n, d, k, i);
    }
  }

  // ---------------------------------------------------------------- on_start

  /** `[it for it in self.items if checked]`. */
  function Select(items: seq<Id>, checked: set<Id>): (sel: seq<Id>)
    ensures forall x :: x in sel <==> x in items && x in checked
  {
    Without(items, (set x | x in items) - checked)
  }

  /** The selection keeps table order. */
  lemma SelectOrdered(items: seq<Id>, checked: set<Id>)
    ensures IsSubsequence(Select(items, checked), items)
  {
    var out := (set x | x in items) - checked;
    assert Select(items, checked) == Without(items, out);
    WithoutOrdered(items, out);
  }

  /** `it['url'] = get_direct_url(it['url'])`, status back to `'queued'`. */
  function Resolved(it: Item, fetch: string -> LinkResolver.Fetch): Item {
    it.(url := LinkResolver.GetDirectUrl(it.url, fetch(it.url)), status := Queued)
  }

  function ResolveOne(recs: map<Id, Item>, x: Id, fetch: string -> LinkResolver.Fetch): map<Id, Item> {
    if x in recs then recs[x := Resolved(recs[x], fetch)] else recs
  }

  function ResolveAll(recs: map<Id, Item>, sel: seq<Id>, fetch: string -> LinkResolver.Fetch): map<Id, Item>
    decreases |sel|
  {
    if sel == [] then recs else ResolveAll(ResolveOne(recs, sel[0], fetch), sel[1..], fetch)
  }

  lemma {:induction false} ResolveAllSpec(recs: map<Id, Item>, sel: seq<Id>, fetch: string -> LinkResolver.Fetch)
    requires NoDuplicates(sel)
    ensures var r := ResolveAll(recs, sel, fetch);
            r.Keys == recs.Keys
            && (forall x :: x in recs && x in sel ==> r[x] == Resolved(recs[x], fetch))
            && (forall x :: x in recs && x !in sel ==> r[x] == recs[x])
    decreases |sel|
  {
    if sel != [] {
      NoDuplicatesTail(sel);
      ResolveAllSpec(ResolveOne(recs, sel[0], fetch), sel[1..], fetch);
    }
  }

  /**
   * `on_start`: no directory chosen (the dialog returns `""`), nothing happens; no item selected, only the
   * directory is kept; otherwise resolve the selected links, queue them in table
   * order, and dispatch `min(parallel, len(selected))` of them.
   */
  function OnStart(s: Manager, parallel: nat, chosenDir: string, checked: set<Id>,
                   fetch: string -> LinkResolver.Fetch, d: nat -> Dispatch): Manager
  {
    if chosenDir == "" then s
    else
      var sel := Select(s.items, checked);
      if sel == [] then s.(destDir := Some(chosenDir))
      else
        DispatchN(Ready(s, parallel, chosenDir, sel, fetch), Min(parallel, |sel|), d, 0)
  }

  /** The state `on_start` builds before its dispatch loop. */
  function Ready(s: Manager, parallel: nat, chosenDir: string, sel: seq<Id>,
                 fetch: string -> LinkResolver.Fetch): Manager {
    s.(destDir := Some(chosenDir), records := ResolveAll(s.records, sel, fetch),
       remaining := sel, active := [], parallel := parallel, polling := true)
  }

  lemma ReadyValid(s: Manager, parallel: nat, chosenDir: string, checked: set<Id>,
                   fetch: string -> LinkResolver.Fetch)
    requires Valid(s)
    ensures var sel := Select(s.items, checked);
            var ready := Ready(s, parallel, chosenDir, sel, fetch);
            Valid(ready)
            && (forall x :: x in ready.records <==> x in s.records)
            && (forall x :: x in s.records && x in sel ==> ready.records[x] == Resolved(s.records[x], fetch))
            && (forall x :: x in s.records && x !in sel ==> ready.records[x] == s.records[x])
  {
    var sel := Select(s.items, checked);
    WithoutKeepsNoDuplicates(s.items, (set x | x in s.items) - checked);
    ResolveAllSpec(s.records, sel, fetch);
  }

  /** `on_start` dispatches the first `min(parallel, |selected|)` selected items in table order and queues the rest. */
  lemma OnStartShape(s: Manager, parallel: nat, chosenDir: string, checked: set<Id>,
                     fetch: string -> LinkResolver.Fetch, d: nat -> Dispatch)
    requires Valid(s)
    ensures var r := OnStart(s, parallel, chosenDir, checked, fetch, d);
            var sel := Select(s.items, checked);
            var n := Min(parallel, |sel|);
            Valid(r)
            && (chosenDir == "" ==> r == s)
            && (chosenDir != "" && sel == [] ==> r == s.(destDir := Some(chosenDir)))
            && (chosenDir != "" && sel != [] ==>
                  r.active == sel[..n] && r.remaining == sel[n..] && r.polling && r.parallel == parallel
                  && r.destDir == Some(chosenDir) && r.items == s.items)
  {
    var sel := Select(s.items, checked);
    if chosenDir != "" && sel != [] {
      ReadyValid(s, parallel, chosenDir, checked, fetch);
      var ready := Ready(s, parallel, chosenDir, sel, fetch);
      DispatchNQueues(ready, Min(parallel, |sel|), d, 0);
      DispatchNValid(ready, Min(parallel, |sel|), d, 0);
    }
  }

  /**
   * After `on_start`, the `i`-th selected item holds its resolved link; the
   * first `min(parallel, |selected|)` were dispatched into the chosen
   * directory with backend answers `d(0), d(1), ...`; unselected items are untouched.
   */
  lemma OnStartRecords(s: Manager, parallel: nat, chosenDir: string, checked: set<Id>,
                       fetch: string -> LinkResolver.Fetch, d: nat -> Dispatch, i: nat)
    requires Valid(s) && chosenDir != ""
    requires i < |Select(s.items, checked)|
    ensures var r := OnStart(s, parallel, chosenDir, checked, fetch, d);
            var sel := Select(s.items, checked);
            var it := Resolved(s.records[sel[i]], fetch);
            sel[i] in r.records
            && r.records[sel[i]] == (if i < parallel then Dispatched(it, d(i), chosenDir) else it)
  {
    var sel := Select(s.items, checked);
    ReadyValid(s, parallel, chosenDir, checked, fetch);
    var ready := Ready(s, parallel, chosenDir, sel, fetch);
    var n := Min(parallel, |sel|);
    if i < n {
      DispatchNRecords(ready, n, d, 0);
    } else {
      DispatchNLater(ready, n, d, 0, i);
    }
  }

  /** `on_start` leaves the records of unselected items as they were. */
  lemma OnStartUntouched(s: Manager, parallel: nat, chosenDir: string, checked: set<Id>,
                         fetch: string -> LinkResolver.Fetch, d: nat -> Dispatch, y: Id)
    requires Valid(s) && y in s.records && y !in Select(s.items, checked)
    ensures var r := OnStart(s, parallel, chosenDir, checked, fetch, d);
            y in r.records && r.records[y] == s.records[y]
  {
    var sel := Select(s.items, checked);
    if chosenDir != "" && sel != [] {
      ReadyValid(s, parallel, chosenDir, checked, fetch);
      DispatchNUntouched(Ready(s, parallel, chosenDir, sel, fetch), Min(parallel, |sel|), d, 0, y);
    }
  }

  // ---------------------------------------------------------------- poll_status

  /** What one poll learns: `is_running()`, the `tell_status` reply per item, and which fallback threads are alive. */
  datatype Observation = Observation(ariaRunning: bool, tell: Id -> TellStatus, alive: set<Id>)

  function EffectOf(obs: Observation, x: Id, it: Item): Effect {
    if obs.ariaRunning then AriaEffect(it, obs.tell(x)) else FallbackEffect(it, x in obs.alive)
  }

  /** One iteration over the snapshot; a freed slot is refilled by the `calls`-th `_start_next`. */
  function Step(s: Manager, x: Id, obs: Observation, d: nat -> Dispatch, calls: nat): (Manager, nat) {
    if x !in s.records then (s, calls)
    else match EffectOf(obs, x, s.records[x])
      case Keep => (s, calls)
      case Touch(it) => (s.(records := s.records[x := it]), calls)
      case Release(it) =>
        (StartNext(s.(records := s.records[x := it], active := RemoveFirst(s.active, x)), d(calls)), calls + 1)
  }

  function PollFrom(s: Manager, rest: seq<Id>, obs: Observation, d: nat -> Dispatch, calls: nat): (r: (Manager, nat))
    ensures r.1 >= calls
    decreases |rest|
  {
    if rest == [] then (s, calls)
    else
      var next := Step(s, rest[0], obs, d, calls);
      PollFrom(next.0, rest[1..], obs, d, next.1)
  }

  /** `poll_status`: one pass over a snapshot of `active`. */
  function Poll(s: Manager, obs: Observation, d: nat -> Dispatch): Manager {
    PollFrom(s, s.active, obs, d, 0).0
  }

  /** The snapshot items whose slot this poll frees. */
  function Released(s: Manager, rest: seq<Id>, obs: Observation): set<Id> {
    set y | y in rest && y in s.records && EffectOf(obs, y, s.records[y]).Release?
  }

  predicate PollReady(s: Manager, rest: seq<Id>) {
    Valid(s) && NoDuplicates(rest) && forall y :: y in rest ==> y in s.active
  }

  /** Storing a record for an active item and dropping it from `active` keeps every invariant and frees a slot. */
  lemma ReleaseValid(s: Manager, x: Id, it: Item)
    requires Valid(s) && x in s.active && it.progress <= 100
    ensures var s0 := s.(records := s.records[x := it], active := RemoveFirst(s.active, x));
            Valid(s0) && |s0.active| < s0.parallel
  {
    RemoveFirstKeepsNoDuplicates(s.active, x);
  }

  /** Polling one active item keeps every invariant. */
  lemma StepValid(s: Manager, x: Id, obs: Observation, d: nat -> Dispatch, calls: nat)
    requires Valid(s) && x in s.active
    ensures Valid(Step(s, x, obs, d, calls).0)
  {
    var e := EffectOf(obs, x, s.records[x]);
    assert Applied(e, s.records[x]).progress <= 100;
    if e.Release? {
      ReleaseValid(s, x, e.item);
      StartNextValid(s.(records := s.records[x := e.item], active := RemoveFirst(s.active, x)), d(calls));
    }
  }

  /**
   * Polling one active item applies its effect to its record; a released
   * item leaves `active` and the FIFO head (if any) is dispatched with the
   * `calls`-th backend answer; nothing else changes.
   */
  lemma StepEffect(s: Manager, x: Id, obs: Observation, d: nat -> Dispatch, calls: nat)
    requires Valid(s) && x in s.active
    ensures var (r, c) := Step(s, x, obs, d, calls);
            var e := EffectOf(obs, x, s.records[x]);
            r.items == s.items && r.parallel == s.parallel && r.destDir == s.destDir && r.cwd == s.cwd
            && r.polling == s.polling && r.nextId == s.nextId
            && (forall y :: y in r.records <==> y in s.records)
            && r.records[x] == Applied(e, s.records[x])
            && (!e.Release? ==> c == calls && r.remaining == s.remaining && r.active == s.active)
            && (e.Release? && s.remaining == [] ==>
                  c == calls + 1 && r.remaining == [] && r.active == RemoveFirst(s.active, x))
            && (e.Release? && s.remaining != [] ==>
                  c == calls + 1 && r.remaining == s.remaining[1..]
                  && r.active == RemoveFirst(s.active, x) + [s.remaining[0]]
                  && r.records[s.remaining[0]] == Dispatched(s.records[s.remaining[0]], d(calls), DestDir(s)))
            && (forall y :: y in s.records && y != x && !(e.Release? && s.remaining != [] && y == s.remaining[0])
                  ==> r.records[y] == s.records[y])
  {
    var e := EffectOf(obs, x, s.records[x]);
    if e.Release? {
      var s0 := s.(records := s.records[x := e.item], active := RemoveFirst(s.active, x));
      assert QueueIndexed(s0);
      StartNextEffect(s0, d(calls));
      if s.remaining != [] {
        assert s.remaining[0] != x;
      }
    }
  }

  /** What the per-record poll lemmas need: the FIFO is indexed, and the snapshot is recorded and apart from it. */
  predicate Polled(s: Manager, rest: seq<Id>) {
    QueueIndexed(s) && NoDuplicates(rest) && forall y :: y in rest ==> y in s.records && y !in s.remaining
  }

  lemma ReadyPolled(s: Manager, rest: seq<Id>)
    requires PollReady(s, rest)
    ensures Polled(s, rest)
  {
  }

  /** How one step moves the queues and the call count; it keeps the keys and the download directory. */
  lemma StepQueues(s: Manager, x: Id, obs: Observation, d: nat -> Dispatch, calls: nat)
    requires x in s.records
    ensures var r := Step(s, x, obs, d, calls);
            var rel := EffectOf(obs, x, s.records[x]).Release?;
            DestDir(r.0) == DestDir(s) && (forall y :: y in r.0.records <==> y in s.records)
            && (!rel ==> r.1 == calls && r.0.remaining == s.remaining && r.0.active == s.active)
            && (rel && s.remaining == [] ==>
                  r.1 == calls + 1 && r.0.remaining == [] && r.0.active == RemoveFirst(s.active, x))
            && (rel && s.remaining != [] ==>
                  r.1 == calls + 1 && r.0.remaining == s.remaining[1..]
                  && r.0.active == RemoveFirst(s.active, x) + [s.remaining[0]])
  {
  }

  /** One step leaves every other record alone, except the FIFO head it dispatches. */
  lemma StepRecord(s: Manager, x: Id, obs: Observation, d: nat -> Dispatch, calls: nat, y: Id)
    requires x in s.records && y in s.records && y != x
    ensures var r := Step(s, x, obs, d, calls).0;
            var refill := EffectOf(obs, x, s.records[x]).Release? && s.remaining != [] && y == s.remaining[0];
            y in r.records && r.records[y] == if refill then Dispatched(s.records[y], d(calls), DestDir(s)) else s.records[y]
  {
  }

  /** The polled item itself ends with its effect applied, when it is not the FIFO head. */
  lemma StepSelf(s: Manager, x: Id, obs: Observation, d: nat -> Dispatch, calls: nat)
    requires x in s.records && (s.remaining == [] || s.remaining[0] != x)
    ensures var r := Step(s, x, obs, d, calls).0;
            x in r.records && r.records[x] == Applied(EffectOf(obs, x, s.records[x]), s.records[x])
  {
  }

  lemma PolledStep(s: Manager, rest: seq<Id>, obs: Observation, d: nat -> Dispatch, calls: nat)
    requires Polled(s, rest) && rest != []
    ensures Polled(Step(s, rest[0], obs, d, calls).0, rest[1..])
  {
    var x := rest[0];
    StepQueues(s, x, obs, d, calls);
    NoDuplicatesTail(rest);
    var s1 := Step(s, x, obs, d, calls).0;
    if s1.remaining != s.remaining {
      NoDuplicatesTail(s.remaining);
      var xs := s1.remaining;
      assert forall y :: y in xs ==> y in s.remaining;
    }
  }

  /** The rest of the snapshot still lies in `active` after polling its head. */
  lemma StepKeepsSnapshot(s: Manager, rest: seq<Id>, obs: Observation, d: nat -> Dispatch, calls: nat)
    requires PollReady(s, rest) && rest != []
    ensures PollReady(Step(s, rest[0], obs, d, calls).0, rest[1..])
  {
    var x := rest[0];
    StepValid(s, x, obs, d, calls);
    StepEffect(s, x, obs, d, calls);
    NoDuplicatesTail(rest);
    var s1 := Step(s, x, obs, d, calls).0;
    forall y | y in rest[1..] ensures y in s1.active {
      assert y != x && y in s.active;
    }
  }

  /** A pass over the snapshot keeps every invariant, in particular `|active| <= parallel`. */
  lemma {:induction false} PollFromValid(s: Manager, rest: seq<Id>, obs: Observation, d: nat -> Dispatch, calls: nat)
    requires PollReady(s, rest)
    ensures var (r, c) := PollFrom(s, rest, obs, d, calls);
            Valid(r) && c >= calls
            && r.items == s.items && r.parallel == s.parallel && r.destDir == s.destDir && r.cwd == s.cwd
            && r.polling == s.polling && r.nextId == s.nextId
            && (forall y :: y in r.records <==> y in s.records)
    decreases |rest|
  {
    if rest != [] {
      var x := rest[0];
      StepEffect(s, x, obs, d, calls);
      StepKeepsSnapshot(s, rest, obs, d, calls);
      var next := Step(s, x, obs, d, calls);
      PollFromValid(next.0, rest[1..], obs, d, next.1);
    }
  }

  lemma PollValid(s: Manager, obs: Observation, d: nat -> Dispatch)
    requires Valid(s)
    ensures Valid(Poll(s, obs, d))
  {
    PollFromValid(s, s.active, obs, d, 0);
  }

  /** How `Released` splits on the first snapshot item, and that the step leaves the others' verdicts alone. */
  lemma ReleasedStep(s: Manager, rest: seq<Id>, obs: Observation, d: nat -> Dispatch, calls: nat)
    requires Polled(s, rest) && rest != []
    ensures var x := rest[0];
            var s1 := Step(s, x, obs, d, calls).0;
            var rel := EffectOf(obs, x, s.records[x]).Release?;
            x !in Released(s, rest[1..], obs)
            && Released(s1, rest[1..], obs) == Released(s, rest[1..], obs)
            && Released(s, rest, obs) == (if rel then {x} else {}) + Released(s, rest[1..], obs)
  {
    var x := rest[0];
    NoDuplicatesTail(rest);
    var s1 := Step(s, x, obs, d, calls).0;
    forall y | y in rest[1..] ensures y in s1.records && s1.records[y] == s.records[y] {
      StepRecord(s, x, obs, d, calls, y);
    }
  }

  /** What the refill proof needs: the snapshot lies in `active`, and `active` and the FIFO are duplicate-free and apart. */
  predicate Refillable(s: Manager, rest: seq<Id>) {
    Polled(s, rest) && NoDuplicates(s.active) && Disjoint(s.remaining, s.active)
    && forall y :: y in rest ==> y in s.active
  }

  lemma ReadyRefillable(s: Manager, rest: seq<Id>)
    requires PollReady(s, rest)
    ensures Refillable(s, rest)
  {
  }

  lemma RefillableStep(s: Manager, rest: seq<Id>, obs: Observation, d: nat -> Dispatch, calls: nat)
    requires Refillable(s, rest) && rest != []
    ensures Refillable(Step(s, rest[0], obs, d, calls).0, rest[1..])
  {
    var x := rest[0];
    PolledStep(s, rest, obs, d, calls);
    StepQueues(s, x, obs, d, calls);
    NoDuplicatesTail(rest);
    var s1 := Step(s, x, obs, d, calls).0;
    if EffectOf(obs, x, s.records[x]).Release? {
      var kept := RemoveFirst(s.active, x);
      RemoveFirstKeepsNoDuplicates(s.active, x);
      assert forall y :: y in rest[1..] ==> y in kept;
      if s.remaining != [] {
        var h := s.remaining[0];
        NoDuplicatesTail(s.remaining);
        assert h !in kept;
        NoDuplicatesAppend(kept, h);
        assert forall y :: y in s1.remaining ==> y in s.remaining && y != h;
        assert forall y :: y in s1.active ==> y in kept || y == h;
      }
    }
  }

  /** After a pass that released `rel` and ended with `out`: one call per release, FIFO order. */
  predicate RefillOutcome(s: Manager, rel: set<Id>, out: (Manager, nat), calls: nat) {
    var n := Min(|rel|, |s.remaining|);
    out.1 == calls + |rel|
    && out.0.remaining == s.remaining[n..]
    && out.0.active == Without(s.active, rel) + s.remaining[..n]
  }

  /**
   * FIFO refill: a poll frees the slots of exactly the released items, makes
   * one `_start_next` call per freed slot, and so moves the first
   * `min(released, queued)` queued items, in order, to the end of `active`.
   */
  lemma {:induction false} PollShape(s: Manager, rest: seq<Id>, obs: Observation, d: nat -> Dispatch, calls: nat)
    requires Refillable(s, rest)
    ensures RefillOutcome(s, Released(s, rest, obs), PollFrom(s, rest, obs, d, calls), calls)
    decreases |rest|
  {
    if rest == [] {
      assert Released(s, rest, obs) == {};
      WithoutNothing(s.active, {});
    } else {
      var x := rest[0];
      NoDuplicatesTail(rest);
      StepQueues(s, x, obs, d, calls);
      ReleasedStep(s, rest, obs, d, calls);
      RefillableStep(s, rest, obs, d, calls);
      var next := Step(s, x, obs, d, calls);
      PollShape(next.0, rest[1..], obs, d, next.1);
      var rel1 := Released(s, rest[1..], obs);
      var out := PollFrom(s, rest, obs, d, calls);
      if !EffectOf(obs, x, s.records[x]).Release? {
        RefillKeep(s, next.0, rel1, out, calls);
      } else if s.remaining == [] {
        RefillDrained(s, next.0, x, rel1, out, calls);
      } else {
        assert s.remaining[0] !in rel1 by {
          assert s.remaining[0] in s.remaining;
        }
        RefillNext(s, next.0, x, rel1, out, calls);
      }
    }
  }

  /** The inductive step of `PollShape` when the polled item keeps its slot. */
  lemma RefillKeep(s: Manager, s1: Manager, rel1: set<Id>, out: (Manager, nat), calls: nat)
    requires s1.remaining == s.remaining && s1.active == s.active
    requires RefillOutcome(s1, rel1, out, calls)
    ensures RefillOutcome(s, {} + rel1, out, calls)
  {
    assert {} + rel1 == rel1;
  }

  /** The inductive step of `PollShape` when the polled item is released and the FIFO is empty. */
  lemma RefillDrained(s: Manager, s1: Manager, x: Id, rel1: set<Id>, out: (Manager, nat), calls: nat)
    requires NoDuplicates(s.active) && x !in rel1 && s.remaining == []
    requires s1.remaining == [] && s1.active == RemoveFirst(s.active, x)
    requires RefillOutcome(s1, rel1, out, calls + 1)
    ensures RefillOutcome(s, {x} + rel1, out, calls)
  {
    WithoutAfterRemove(s.active, x, rel1);
  }

  /** The inductive step of `PollShape` when the polled item is released and the FIFO head takes its slot. */
  lemma RefillNext(s: Manager, s1: Manager, x: Id, rel1: set<Id>, out: (Manager, nat), calls: nat)
    requires NoDuplicates(s.active) && x !in rel1 && s.remaining != [] && s.remaining[0] !in rel1
    requires s1.remaining == s.remaining[1..] && s1.active == RemoveFirst(s.active, x) + [s.remaining[0]]
    requires RefillOutcome(s1, rel1, out, calls + 1)
    ensures RefillOutcome(s, {x} + rel1, out, calls)
  {
    var n1 := Min(|rel1|, |s1.remaining|);
    RefillHead(s.active, s.remaining, x, rel1, n1);
    assert Min(|{x} + rel1|, |s.remaining|) == 1 + n1;
  }

  /** Sequence algebra of one refill: release `x`, append the FIFO head, then the later refills. */
  lemma RefillHead(active: seq<Id>, remaining: seq<Id>, x: Id, rel1: set<Id>, n1: nat)
    requires NoDuplicates(active) && remaining != [] && remaining[0] !in rel1 && n1 < |remaining|
    ensures Without(RemoveFirst(active, x) + [remaining[0]], rel1) + remaining[1..][..n1]
            == Without(active, {x} + rel1) + remaining[..1 + n1]
    ensures remaining[1..][n1..] == remaining[1 + n1..]
  {
    WithoutAfterRemove(active, x, rel1);
    WithoutAppendKept(RemoveFirst(active, x), remaining[0], rel1);
    PrefixStep(remaining, n1);
  }

  lemma PollFifo(s: Manager, obs: Observation, d: nat -> Dispatch)
    requires Valid(s)
    ensures var r := Poll(s, obs, d);
            var rel := Released(s, s.active, obs);
            var n := Min(|rel|, |s.remaining|);
            r.remaining == s.remaining[n..] && r.active == Without(s.active, rel) + s.remaining[..n]
            && PollFrom(s, s.active, obs, d, 0).1 == |rel|
  {
    ReadyRefillable(s, s.active);
    PollShape(s, s.active, obs, d, 0);
  }

  /**
   * Each poll serves one backend. While aria2 answers the probe, an active item without a gid
   * (a fallback item, even one whose thread has ended) keeps its slot; while it does not, an
   * active item without a fallback worker (an aria2 item, even a finished one) keeps its slot.
   */
  lemma OtherBackendKeepsSlot(s: Manager, obs: Observation, d: nat -> Dispatch, x: Id)
    requires Valid(s) && x in s.active
    ensures x in s.records
    ensures (obs.ariaRunning && !HasGid(s.records[x])) || (!obs.ariaRunning && s.records[x].worker.None?)
            ==> x in Poll(s, obs, d).active
  {
    assert x in s.records;
    var rel := Released(s, s.active, obs);
    PollFifo(s, obs, d);
    if (obs.ariaRunning && !HasGid(s.records[x])) || (!obs.ariaRunning && s.records[x].worker.None?) {
      assert !EffectOf(obs, x, s.records[x]).Release?;
      assert x !in rel;
      assert x in Without(s.active, rel);
    }
  }

  /** Every snapshot item has a record. */
  predicate Recorded(s: Manager, rest: seq<Id>) {
    forall z :: z in rest ==> z in s.records
  }

  /** A record that is neither in the snapshot nor queued is untouched by the poll. */
  lemma {:induction false} PollUntouched(s: Manager, rest: seq<Id>, obs: Observation, d: nat -> Dispatch, calls: nat, y: Id)
    requires Recorded(s, rest) && y in s.records && y !in rest && y !in s.remaining
    ensures var r := PollFrom(s, rest, obs, d, calls).0;
            y in r.records && r.records[y] == s.records[y]
    decreases |rest|
  {
    if rest != [] {
      var x := rest[0];
      assert x in rest;
      StepQueues(s, x, obs, d, calls);
      StepRecord(s, x, obs, d, calls, y);
      var next := Step(s, x, obs, d, calls);
      assert y !in next.0.remaining by {
        var xs := next.0.remaining;
        assert forall z :: z in xs ==> z in s.remaining;
      }
      assert Recorded(next.0, rest[1..]) by {
        assert forall z :: z in rest[1..] ==> z in rest;
      }
      PollUntouched(next.0, rest[1..], obs, d, next.1, y);
    }
  }

  /** A polled snapshot item ends with the record its effect gives it. */
  lemma {:induction false} PollPolled(s: Manager, rest: seq<Id>, obs: Observation, d: nat -> Dispatch, calls: nat, y: Id)
    requires Polled(s, rest) && y in rest
    ensures var r := PollFrom(s, rest, obs, d, calls).0;
            y in r.records && r.records[y] == Applied(EffectOf(obs, y, s.records[y]), s.records[y])
    decreases |rest|
  {
    var x := rest[0];
    NoDuplicatesTail(rest);
    PolledStep(s, rest, obs, d, calls);
    var next := Step(s, x, obs, d, calls);
    if y == x {
      StepSelf(s, x, obs, d, calls);
      StepQueues(s, x, obs, d, calls);
      assert x !in next.0.remaining by {
        var xs := next.0.remaining;
        assert forall z :: z in xs ==> z in s.remaining;
      }
      PollUntouched(next.0, rest[1..], obs, d, next.1, x);
    } else {
      assert y in rest[1..];
      StepRecord(s, x, obs, d, calls, y);
      PollPolled(next.0, rest[1..], obs, d, next.1, y);
    }
  }

  /** The record of the `i`-th queued item after a pass that ended with `out`. */
  predicate QueuedOutcome(s: Manager, out: (Manager, nat), d: nat -> Dispatch, calls: nat, i: nat)
    requires i < |s.remaining| && s.remaining[i] in s.records
  {
    var y := s.remaining[i];
    y in out.0.records
    && out.0.records[y] == (if calls + i < out.1 then Dispatched(s.records[y], d(calls + i), DestDir(s)) else s.records[y])
  }

  /**
   * The `i`-th queued item is dispatched by the poll's `i`-th `_start_next`
   * call when that call happens (`calls + i < c`), and is untouched otherwise.
   */
  lemma {:induction false} PollQueued(s: Manager, rest: seq<Id>, obs: Observation, d: nat -> Dispatch, calls: nat, i: nat)
    requires Recorded(s, rest) && i < |s.remaining| && s.remaining[i] in s.records && s.remaining[i] !in rest
    requires forall j :: 0 <= j < |s.remaining| && j != i ==> s.remaining[j] != s.remaining[i]
    ensures QueuedOutcome(s, PollFrom(s, rest, obs, d, calls), d, calls, i)
    decreases |rest|
  {
    var y := s.remaining[i];
    if rest != [] {
      var x := rest[0];
      assert x in rest;
      StepQueues(s, x, obs, d, calls);
      StepRecord(s, x, obs, d, calls, y);
      var next := Step(s, x, obs, d, calls);
      var s1 := next.0;
      assert Recorded(s1, rest[1..]) && y !in rest[1..] by {
        assert forall z :: z in rest[1..] ==> z in rest;
      }
      if !EffectOf(obs, x, s.records[x]).Release? {
        PollQueued(s1, rest[1..], obs, d, next.1, i);
      } else if i == 0 {
        assert y !in s1.remaining by {
          assert forall j :: 0 <= j < |s1.remaining| ==> s1.remaining[j] == s.remaining[j + 1];
        }
        PollUntouched(s1, rest[1..], obs, d, next.1, y);
      } else {
        assert forall j :: 0 <= j < |s1.remaining| ==> s1.remaining[j] == s.remaining[j + 1];
        assert y == s1.remaining[i - 1];
        PollQueued(s1, rest[1..], obs, d, next.1, i - 1);
      }
    }
  }

  /**
   * In one poll the `i`-th queued item is dispatched by the poll's `i`-th
   * `_start_next` call, with that call's backend answer, when the poll makes
   * that many calls (one per released item); otherwise its record is untouched.
   */
  lemma PollDispatchesQueued(s: Manager, obs: Observation, d: nat -> Dispatch, i: nat)
    requires Valid(s) && i < |s.remaining|
    ensures var (r, c) := PollFrom(s, s.active, obs, d, 0);
            var y := s.remaining[i];
            c == |Released(s, s.active, obs)| && y in r.records
            && r.records[y] == if i < c then Dispatched(s.records[y], d(i), DestDir(s)) else s.records[y]
  {
    PollFifo(s, obs, d);
    var y := s.remaining[i];
    assert y !in s.active;
    PollQueued(s, s.active, obs, d, 0, i);
  }

  /**
   * An item whose dispatch failed (no gid, no worker) keeps its record and its
   * slot through any poll: it is never released.
   */
  lemma FailedDispatchKeepsSlot(s: Manager, obs: Observation, d: nat -> Dispatch, x: Id)
    requires Valid(s) && x in s.active && !HasGid(s.records[x]) && s.records[x].worker.None?
    ensures var r := Poll(s, obs, d);
            x in r.active && x in r.records && r.records[x] == s.records[x]
  {
    ReadyRefillable(s, s.active);
    PollShape(s, s.active, obs, d, 0);
    PollPolled(s, s.active, obs, d, 0, x);
    assert x !in Released(s, s.active, obs);
  }

  /** `_start_next` on a fresh item that meets an `add_uri` exception leaves it in `active` with neither gid nor worker. */
  lemma FailedDispatchIsStuck(s: Manager)
    requires Valid(s) && s.remaining != [] && |s.active| < s.parallel
    requires !HasGid(s.records[s.remaining[0]]) && s.records[s.remaining[0]].worker.None?
    ensures var r := StartNext(s, ViaAria(Raised));
            var h := s.remaining[0];
            h in r.active && r.records[h].status == Error && !HasGid(r.records[h]) && r.records[h].worker.None?
  {
    StartNextEffect(s, ViaAria(Raised));
    DispatchedSpec(s.records[s.remaining[0]], ViaAria(Raised), DestDir(s));
  }

  // ---------------------------------------------------------------- on_stop_all

  /** `dt.get('fd').cancel(); it['status_item'].setText('cancelled')` for one item, if it has a worker. */
  function CancelOne(recs: map<Id, Item>, x: Id): map<Id, Item> {
    if x in recs && recs[x].worker.Some? then recs[x := CancelItem(recs[x])] else recs
  }

  function CancelAll(recs: map<Id, Item>, ids: seq<Id>): map<Id, Item>
    decreases |ids|
  {
    if ids == [] then recs else CancelAll(CancelOne(recs, ids[0]), ids[1..])
  }

  /** `on_stop_all`: cancel and mark `'cancelled'` every table item with a worker; stop the poll timer. */
  function StopAll(s: Manager): Manager {
    s.(records := CancelAll(s.records, s.items), polling := false)
  }

  /** Cancelling a list of items cancels exactly those with a worker, each once in effect. */
  lemma {:induction false} CancelAllSpec(recs: map<Id, Item>, ids: seq<Id>)
    ensures var r := CancelAll(recs, ids);
            (forall x :: x in r <==> x in recs)
            && (forall x :: x in recs && x in ids && recs[x].worker.Some? ==> r[x] == CancelItem(recs[x]))
            && (forall x :: x in recs && (x !in ids || recs[x].worker.None?) ==> r[x] == recs[x])
    decreases |ids|
  {
    if ids != [] {
      var recs1 := CancelOne(recs, ids[0]);
      CancelAllSpec(recs1, ids[1..]);
      var r := CancelAll(recs, ids);
      forall x | x in recs && x in ids && recs[x].worker.Some? ensures r[x] == CancelItem(recs[x]) {
        if x == ids[0] {
          assert CancelItem(recs1[x]) == recs1[x];
        }
      }
    }
  }

  /** Stop-all touches only items with a worker (finished ones included) and leaves the queues alone. */
  lemma StopAllSpec(s: Manager)
    requires Valid(s)
    ensures var r := StopAll(s);
            Valid(r) && !r.polling
            && r.remaining == s.remaining && r.active == s.active && r.items == s.items
            && (forall x :: x in r.records <==> x in s.records)
            && (forall x :: x in s.items && s.records[x].worker.Some? ==>
                  r.records[x] == CancelItem(s.records[x]))
            && (forall x :: x in s.records && (x !in s.items || s.records[x].worker.None?) ==>
                  r.records[x] == s.records[x])
  {
    CancelAllSpec(s.records, s.items);
  }

  /** Stopping twice is stopping once. */
  lemma StopAllIdempotent(s: Manager)
    ensures StopAll(StopAll(s)) == StopAll(s)
  {
    var r := StopAll(s);
    CancelAllSpec(s.records, s.items);
    CancelAllSpec(r.records, s.items);
    var rr := CancelAll(r.records, s.items);
    forall x | x in rr ensures rr[x] == r.records[x] {
      if x in s.items && s.records[x].worker.Some? {
        assert r.records[x] == CancelItem(s.records[x]);
      }
    }
    assert rr == r.records;
  }
}

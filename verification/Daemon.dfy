/**
 The daemon in its mutable form: the shared `State`, the directory it saves to,
 and the tasks. Every method is one atomic action of `main.rs` or `ipc.rs`, and is
 proved to be that action of `Engine`; `Interleave` runs any schedule of them.
 */
module Daemon {
  import opened Common
  import opened Config
  import opened Counters
  import opened Storage
  import opened Engine

  class Daemon {
    const d: U32
    const state: State
    var ticker: Ticker
    var resetter: Resetter
    const files: Files
    var sent: nat
    var subs: map<nat, Subscriber>
    ghost var trail: Trail

    ghost function Model(): System
      reads this, state, files
    {
      System(d, state.Contents(), ticker, resetter, files.Model(), sent, subs, trail)
    }

    ghost predicate Valid()
      reads this, state, files
    {
      files.Valid() && WellFormed(Model())
    }

    /** The start-up order: load, day check, console query, then the tasks. */
    constructor Start(d: U32, disk: Disk, ghost cloned: set<View>, today: Date, active: set<Name>)
      requires disk.Valid()
      ensures Valid() && fresh(state) && fresh(files)
      ensures Model() == Boot(d, disk, cloned, today, active)
    {
      this.d := d;
      var storage := new Files(disk);
      var loaded := storage.LoadState();
      this.state := new State(loaded);
      this.ticker := TickerIdle;
      this.resetter := ResetterIdle;
      this.files := storage;
      this.sent := 0;
      this.subs := map[];
      new;
      var rolled := state.ResetIfNewDay(today);
      state.activeNow := active;
      trail := Boot(d, disk, cloned, today, active).trail;
    }

    /** `sessions::console_users()`, before the date is read. */
    method PollConsole(active: set<Name>)
      requires Valid() && ticker.TickerIdle?
      modifies this
      ensures Valid() && Model() == Apply(old(Model()), Poll(active))
    {
      ticker := TickerPolled(active);
    }

    method ReadTickerDate(today: Date)
      requires Valid() && ticker.TickerPolled?
      modifies this
      ensures Valid() && Model() == Apply(old(Model()), TickerReadDate(today))
    {
      ticker := TickerDated(ticker.active, today);
    }

    /** The ticker's critical section: day check, tick, clone. */
    method LockedTick()
      requires Valid() && ticker.TickerDated?
      modifies this, state
      ensures Valid() && Model() == Apply(old(Model()), TickerLock)
    {
      ghost var before := Model();
      var rolled := state.ResetIfNewDay(ticker.today);
      state.Tick(ticker.active, d);
      var snapshot := state.Clone();
      ticker := TickerSaving(ticker.active, snapshot, Pending);
      trail := Apply(before, TickerLock).trail;
    }

    method ReadResetterDate(today: Date)
      requires Valid() && resetter.ResetterIdle?
      modifies this
      ensures Valid() && Model() == Apply(old(Model()), ResetterReadDate(today))
    {
      resetter := ResetterDated(today);
    }

    /** The resetter's critical section: day check, clone. */
    method LockedReset()
      requires Valid() && resetter.ResetterDated?
      modifies this, state
      ensures Valid() && Model() == Apply(old(Model()), ResetterLock)
    {
      ghost var before := Model();
      var rolled := state.ResetIfNewDay(resetter.today);
      var snapshot := state.Clone();
      resetter := ResetterSaving(rolled, snapshot, Pending);
      trail := Apply(before, ResetterLock).trail;
    }

    /** Leaves `save_atomic`: the ticker goes on to send, the resetter if it rolled. */
    method FinishSave(who: Task, saved: bool)
      requires Valid() && SaveOf(Model(), who).Some?
      modifies this`ticker, this`resetter, this`trail
      ensures Model() == SaveDone(old(Model()), who, saved)
    {
      ghost var before := Model();
      match who {
        case TickerTask =>
          ticker := TickerSending(ticker.active, ticker.snap);
        case ResetterTask =>
          resetter := if resetter.rolled then ResetterSending else ResetterIdle;
      }
      trail := SaveDone(before, who, saved).trail;
    }

    method SetSave(who: Task, save: Save)
      requires SaveOf(Model(), who).Some?
      modifies this`ticker, this`resetter
      ensures Model() == WithSave(old(Model()), who, save)
    {
      match who {
        case TickerTask => ticker := ticker.(save := save);
        case ResetterTask => resetter := resetter.(save := save);
      }
    }

    /** `std::fs::write`, first half: open `<path>.tmp` and truncate it. */
    method OpenTemporary(who: Task, ok: bool)
      requires Valid() && SaveOf(Model(), who).Some? && SaveOf(Model(), who).value.1.Pending?
      modifies this`ticker, this`resetter, this`trail, files
      ensures Valid() && Model() == Apply(old(Model()), OpenTmp(who, ok))
    {
      if !ok {
        FinishSave(who, false);
      } else {
        var fd := files.Create(Temporary);
        SetSave(who, Opened(fd));
        trail := trail.(unfinished := trail.unfinished + {fd},
                        solo := if who == TickerTask then !resetter.ResetterSaving? else trail.solo);
      }
    }

    /** `std::fs::write`, second half: write the serialized clone. */
    method FillTemporary(who: Task, cut: Option<nat>)
      requires Valid() && SaveOf(Model(), who).Some? && SaveOf(Model(), who).value.1.Opened?
      modifies this`ticker, this`resetter, this`trail, files
      ensures Valid() && Model() == Apply(old(Model()), FillTmp(who, cut))
    {
      ghost var before := Model();
      var snap, save := CurrentSave(who);
      files.WriteView(save.fd, snap, cut);
      trail := trail.(unfinished := UnfinishedAfter(before, save.fd, snap, cut));
      if cut.None? {
        SetSave(who, Filled);
      } else {
        FinishSave(who, false);
      }
    }

    method CurrentSave(who: Task) returns (snap: View, save: Save)
      requires SaveOf(Model(), who).Some?
      ensures SaveOf(Model(), who) == Some((snap, save))
    {
      match who {
        case TickerTask => snap, save := ticker.snap, ticker.save;
        case ResetterTask => snap, save := resetter.snap, resetter.save;
      }
    }

    /** `std::fs::rename` over the state file. */
    method RenameTemporary(who: Task, ok: bool)
      requires Valid() && SaveOf(Model(), who).Some? && SaveOf(Model(), who).value.1.Filled?
      modifies this, files
      ensures Valid() && Model() == Apply(old(Model()), RenameTmp(who, ok))
    {
      var renamed := false;
      if ok {
        renamed := files.Rename(Temporary, StateFile);
      }
      FinishSave(who, renamed);
    }

    method SendFromTicker()
      requires Valid() && ticker.TickerSending?
      modifies this
      ensures Valid() && Model() == Apply(old(Model()), TickerSend)
    {
      sent := sent + 1;
      ticker := TickerEnforcing(ticker.active, ticker.snap);
    }

    method SendFromResetter()
      requires Valid() && resetter.ResetterSending?
      modifies this
      ensures Valid() && Model() == Apply(old(Model()), ResetterSend)
    {
      sent := sent + 1;
      resetter := ResetterIdle;
    }

    /** The enforcement pass ends the ticker's round; see `Enforcement`. */
    method FinishRound()
      requires Valid() && ticker.TickerEnforcing?
      modifies this
      ensures Valid() && Model() == Apply(old(Model()), Enforce)
    {
      ticker := TickerIdle;
    }

    /** `tick_tx.subscribe()`, before the first status is computed. */
    method AddSubscriber(id: nat, name: Name)
      requires Valid() && id !in subs
      modifies this
      ensures Valid() && Model() == Apply(old(Model()), Subscribe(id, name))
    {
      subs := subs[id := Subscriber(name, sent, Minted, 0, false)];
    }

    /** The locked read of `compute_status`. */
    method ComputeStatus(id: nat)
      requires Valid() && id in subs && !subs[id].phase.Waiting?
      modifies this
      ensures Valid() && Model() == Apply(old(Model()), Compute(id))
    {
      var sub := subs[id];
      var used := if sub.name in state.counters then state.counters[sub.name] else 0;
      subs := subs[id := sub.(phase := Waiting, used := used, active := sub.name in state.activeNow)];
    }

    /** `rx.recv()`, a lag notice included. */
    method ReceiveWake(id: nat)
      requires Valid() && id in subs && subs[id].phase.Waiting? && subs[id].next < sent
      modifies this
      ensures Valid() && Model() == Apply(old(Model()), Receive(id))
      ensures old(subs[id].next) < subs[id].next <= sent <= subs[id].next + TICK_BROADCAST_CAPACITY
      ensures forall i :: old(subs[id].next) < i < subs[id].next ==> !Retained(sent, i)
    {
      var sub := subs[id];
      var next := sub.next + 1;
      if sent - sub.next > TICK_BROADCAST_CAPACITY {
        next := sent - TICK_BROADCAST_CAPACITY;
      }
      subs := subs[id := sub.(phase := Woken, next := next)];
    }

    method DropSubscriber(id: nat)
      requires Valid() && id in subs
      modifies this
      ensures Valid() && Model() == Apply(old(Model()), Close(id))
    {
      subs := subs - {id};
    }

    method Reload(today: Date, active: set<Name>)
      requires files.Valid()
      modifies state
      ensures state.Contents() == Rolled(files.Model().Load().(active := active), today)
    {
      var loaded := files.LoadState();
      state.day, state.counters, state.activeNow := loaded.day, loaded.counters, loaded.active;
      var rolled := state.ResetIfNewDay(today);
      state.activeNow := active;
    }

    /** The process dies and starts again on the same files. */
    method CrashAndRestart(today: Date, active: set<Name>)
      requires Valid()
      modifies this, state
      ensures Valid() && Model() == Apply(old(Model()), Restart(today, active))
    {
      ghost var before := Model();
      Reload(today, active);
      ticker, resetter, sent, subs := TickerIdle, ResetterIdle, 0, map[];
      trail := Apply(before, Restart(today, active)).trail;
    }

    /** Runs one action if its task is at the right point. */
    method Step(a: Action)
      requires Valid()
      modifies this, state, files
      ensures Valid() && Model() == Apply(old(Model()), a)
    {
      var enabled := IsEnabled(a);
      if enabled {
        match a {
          case Poll(active) => PollConsole(active);
          case TickerReadDate(today) => ReadTickerDate(today);
          case TickerLock => LockedTick();
          case ResetterReadDate(today) => ReadResetterDate(today);
          case ResetterLock => LockedReset();
          case OpenTmp(who, ok) => OpenTemporary(who, ok);
          case FillTmp(who, cut) => FillTemporary(who, cut);
          case RenameTmp(who, ok) => RenameTemporary(who, ok);
          case TickerSend => SendFromTicker();
          case ResetterSend => SendFromResetter();
          case Enforce => FinishRound();
          case Subscribe(id, name) => AddSubscriber(id, name);
          case Compute(id) => ComputeStatus(id);
          case Receive(id) => ReceiveWake(id);
          case Close(id) => DropSubscriber(id);
          case Restart(today, active) => CrashAndRestart(today, active);
        }
      }
    }

    method IsEnabled(a: Action) returns (enabled: bool)
      ensures enabled == Enabled(Model(), a)
    {
      match a {
        case Poll(_) => enabled := ticker.TickerIdle?;
        case TickerReadDate(_) => enabled := ticker.TickerPolled?;
        case TickerLock => enabled := ticker.TickerDated?;
        case ResetterReadDate(_) => enabled := resetter.ResetterIdle?;
        case ResetterLock => enabled := resetter.ResetterDated?;
        case OpenTmp(TickerTask, _) => enabled := ticker.TickerSaving? && ticker.save.Pending?;
        case OpenTmp(ResetterTask, _) => enabled := resetter.ResetterSaving? && resetter.save.Pending?;
        case FillTmp(TickerTask, _) => enabled := ticker.TickerSaving? && ticker.save.Opened?;
        case FillTmp(ResetterTask, _) => enabled := resetter.ResetterSaving? && resetter.save.Opened?;
        case RenameTmp(TickerTask, _) => enabled := ticker.TickerSaving? && ticker.save.Filled?;
        case RenameTmp(ResetterTask, _) => enabled := resetter.ResetterSaving? && resetter.save.Filled?;
        case TickerSend => enabled := ticker.TickerSending?;
        case ResetterSend => enabled := resetter.ResetterSending?;
        case Enforce => enabled := ticker.TickerEnforcing?;
        case Subscribe(id, _) => enabled := id !in subs;
        case Compute(id) => enabled := id in subs && !subs[id].phase.Waiting?;
        case Receive(id) => enabled := id in subs && subs[id].phase.Waiting? && subs[id].next < sent;
        case Close(id) => enabled := id in subs;
        case Restart(_, _) => enabled := true;
      }
    }

    /** `save_atomic` when nothing interrupts it: the file is the clone's text. */
    method SaveUndisturbed()
      requires Valid() && ticker.TickerSaving? && ticker.save.Pending?
      modifies this, files
      ensures Valid() && state.Contents() == old(state.Contents())
      ensures files.Contents(StateFile) == Some(files.codec.encode(old(ticker.snap)))
      ensures files.Contents(Temporary) == None
      ensures ticker == TickerSending(old(ticker.active), old(ticker.snap)) && sent == old(sent)
      ensures resetter == old(resetter) && subs == old(subs)
    {
      OpenTemporary(TickerTask, true);
      FillTemporary(TickerTask, None);
      CompleteFill(files.codec.encode(ticker.snap));
      RenameTemporary(TickerTask, true);
    }

    lemma CompleteFill(t: Text)
      ensures Overwritten("", t, |t|) == t
    {
    }

    /**
     One round of the ticker's loop that nothing interrupts: the file holds the
     new counters, every receiver has one more message, and enforcement is handed
     the same counters.
     */
    method TickerRound(active: set<Name>, today: Date)
      requires Valid() && files.codec.Valid() && ticker.TickerIdle?
      modifies this, state, files
      ensures Valid()
      ensures state.Contents() == Ticked(Rolled(old(state.Contents()), today), active, d)
      ensures files.Contents(StateFile).Some? && files.Contents(Temporary).None?
      ensures files.codec.decode(files.Contents(StateFile).value) == Some(Persisted(state.Contents()))
      ensures ticker == TickerEnforcing(active, state.Contents()) && sent == old(sent) + 1
      ensures resetter == old(resetter) && subs == old(subs)
    {
      PollConsole(active);
      ReadTickerDate(today);
      LockedTick();
      ghost var v := state.Contents();
      SaveUndisturbed();
      DecodesWhole(files.codec, v);
      SendFromTicker();
    }

    /** Runs a whole schedule, so every theorem about `Exec` is about this object. */
    method Interleave(acts: seq<Action>)
      requires Valid()
      modifies this, state, files
      ensures Valid() && Model() == Exec(old(Model()), acts)
    {
      var i := 0;
      while i < |acts|
        invariant 0 <= i <= |acts|
        invariant Valid() && Exec(Model(), acts[i..]) == Exec(old(Model()), acts)
      {
        assert acts[i..][0] == acts[i] && acts[i..][1..] == acts[i + 1..];
        Step(acts[i]);
        i := i + 1;
      }
      assert acts[i..] == [];
    }
  }
}

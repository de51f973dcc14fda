/** The connection-settings protocol: a saver and the consumers of several processes meet in a
    settings row, each process's environment, and a file whose stamp is the signal (connection.py). */
module SettingsSync {
  import opened Text

  type Vals = map<string, string>

  /** A consumer of a process: its request path or its poller. */
  datatype Who = Who(proc: nat, name: string)

  /** Where a consumer stands inside one call of the sync. */
  datatype Place =
    | Idle
    | Statted(mtime: Option<int>)
    | Marked
    | HaveKeys(keys: set<string>)
    | HaveVals(keys: set<string>, snap: Vals)

  datatype Consumer = Consumer(seen: Option<int>, at: Place, applied: Option<Vals>)

  /** Where the one running save stands; saves do not overlap. */
  datatype Saver =
    | Free
    | Prepared(proc: nat, values: Vals, base: Vals)
    | KeysRecorded(proc: nat, values: Vals, base: Vals)
    | EnvWritten(proc: nat, values: Vals, base: Vals)

  /** `stamp` is absent while there is no file. `past` holds every stamp the file has had;
      `committed` the recorded keys at the last change of the file; `ahead` what saves have written
      into each environment since that change and nothing has overwritten. A save under way
      remembers in `base` the file it read. */
  datatype State = State(
    stamp: Option<int>, file: Vals, saved: set<string>, env: map<nat, Vals>,
    consumers: map<Who, Consumer>, saver: Saver,
    past: set<int>, committed: set<string>, ahead: map<nat, Vals>)

  datatype Event =
    | Begin(proc: nat, values: Vals)
    | RecordKeys
    | WriteEnv
    | Replace(stamp: int)
    | Abort
    | Edit(file: Vals, stamp: int)
    | Restart(proc: nat, env: Vals)
    | Stat(who: Who)
    | Compare(who: Who)
    | ReadKeys(who: Who)
    | ReadFile(who: Who)
    | Apply(who: Who)

  function EnvOf(s: State, proc: nat): Vals {
    if proc in s.env then s.env[proc] else map[]
  }

  function AheadOf(s: State, proc: nat): Vals {
    if proc in s.ahead then s.ahead[proc] else map[]
  }

  function Restrict(vals: Vals, keys: set<string>): (r: Vals) {
    map k | k in vals && k in keys :: vals[k]
  }

  function At(s: State, w: Who, c: Consumer): State {
    s.(consumers := s.consumers[w := c])
  }

  function Stamped(s: State, file: Vals, stamp: int): State {
    s.(stamp := Some(stamp), file := file, past := s.past + {stamp}, committed := s.saved, ahead := map[])
  }

  function Applied(s: State, proc: nat, snap: Vals): State {
    s.(env := s.env[proc := EnvOf(s, proc) + snap], ahead := s.ahead[proc := AheadOf(s, proc) - snap.Keys])
  }

  /** One step of a consumer inside `sync_from_file`. */
  function ConsumerNext(s: State, c: Consumer, e: Event): Consumer {
    match e
    case Stat(_) => if c.at.Idle? && s.stamp.Some? then c.(at := Statted(s.stamp)) else c
    case Compare(_) =>
      if !c.at.Statted? then c
      else if c.seen == c.at.mtime then c.(at := Idle)
      else c.(seen := c.at.mtime, at := Marked)
    case ReadKeys(_) =>
      if !c.at.Marked? then c
      else if s.saved == {} then c.(at := Idle, applied := if c.applied.None? then Some(map[]) else c.applied)
      else c.(at := HaveKeys(s.saved))
    case ReadFile(_) => if c.at.HaveKeys? then c.(at := HaveVals(c.at.keys, Restrict(s.file, c.at.keys))) else c
    case Apply(_) => if c.at.HaveVals? then c.(at := Idle, applied := Some(c.at.snap)) else c
    case _ => c
  }

  predicate IsConsumerEvent(e: Event) {
    e.Stat? || e.Compare? || e.ReadKeys? || e.ReadFile? || e.Apply?
  }

  /** One atomic step; an event that is not possible now changes nothing. */
  function Next(s: State, e: Event): State {
    match e
    case Begin(p, values) =>
      if s.saver.Free? && values != map[] then s.(saver := Prepared(p, values, s.file)) else s
    case RecordKeys =>
      if s.saver.Prepared?
      then s.(saved := s.saved + s.saver.values.Keys, saver := KeysRecorded(s.saver.proc, s.saver.values, s.saver.base))
      else s
    case WriteEnv =>
      if s.saver.KeysRecorded?
      then s.(env := s.env[s.saver.proc := EnvOf(s, s.saver.proc) + s.saver.values],
              ahead := s.ahead[s.saver.proc := AheadOf(s, s.saver.proc) + s.saver.values],
              saver := EnvWritten(s.saver.proc, s.saver.values, s.saver.base))
      else s
    case Replace(t) =>
      if s.saver.EnvWritten? && t !in s.past
      then Stamped(s, s.saver.base + s.saver.values, t).(saver := Free)
      else s
    case Abort =>
      s.(saver := Free)
    case Edit(file, t) => if t !in s.past then Stamped(s, file, t) else s
    case Restart(p, env) =>
      s.(env := s.env[p := env], ahead := s.ahead - {p},
         saver := if !s.saver.Free? && s.saver.proc == p then Free else s.saver,
         consumers := map w | w in s.consumers ::
           if w.proc == p then Consumer(None, Idle, None) else s.consumers[w])
    case _ =>
      if e.who !in s.consumers then s
      else
        var c := s.consumers[e.who];
        var s' := At(s, e.who, ConsumerNext(s, c, e));
        if e.Apply? && c.at.HaveVals? then Applied(s', e.who.proc, c.at.snap) else s'
  }

  function Run(s: State, es: seq<Event>): State {
    if es == [] then s else Next(Run(s, es[..|es| - 1]), es[|es| - 1])
  }

  /** Any starting point at rest: no file yet or a stamped one, nobody has looked. */
  ghost predicate Initial(s: State) {
    && s.saver == Free && s.committed == s.saved && s.ahead == map[]
    && (s.stamp.Some? ==> s.stamp.value in s.past) && (s.stamp.None? ==> s.file == map[])
    && forall w :: w in s.consumers ==> s.consumers[w] == Consumer(None, Idle, None)
  }

  // ----- what every step keeps -----

  /** A call that has marked the current stamp has read, or will read, keys and values that cover
      everything committed with that file. */
  ghost predicate Current(s: State, c: Consumer) {
    c.seen == s.stamp ==>
      match c.at
      case Idle => s.stamp.Some? ==> c.applied.Some? && Covers(s, c.applied.value)
      case Statted(mt) => mt == s.stamp && c.applied.Some? && Covers(s, c.applied.value)
      case Marked => true
      case HaveKeys(keys) => s.committed <= keys
      case HaveVals(keys, snap) => s.committed <= keys && snap == Restrict(s.file, keys)
  }

  /** `snap` holds the file's values, for recorded keys only and for all committed ones. */
  ghost predicate Covers(s: State, snap: Vals) {
    exists keys :: s.committed <= keys <= s.saved && snap == Restrict(s.file, keys)
  }

  ghost predicate Stamps(s: State, c: Consumer) {
    && (c.seen.Some? ==> c.seen.value in s.past)
    && (c.at.Statted? ==> c.at.mtime.Some? && c.at.mtime.value in s.past)
    && (c.at.HaveKeys? || c.at.HaveVals? ==> c.at.keys <= s.saved)
    && (!c.at.Idle? && !c.at.Statted? ==> c.seen.Some?)
    && (c.at.HaveVals? ==> c.at.snap.Keys <= c.at.keys)
    && (c.applied.Some? ==> c.applied.value.Keys <= s.saved)
  }

  /** The environment has the file's value of every committed key. */
  ghost predicate Agrees(s: State, proc: nat) {
    forall k :: k in s.committed && k in s.file ==> k in EnvOf(s, proc) && EnvOf(s, proc)[k] == s.file[k]
  }

  /** The consumer has not acted on the current file yet. */
  ghost predicate Owes(s: State, c: Consumer) {
    c.seen != s.stamp || c.at.Marked? || c.at.HaveKeys? || c.at.HaveVals?
  }

  ghost predicate SomeoneOwes(s: State, proc: nat) {
    exists w :: w in s.consumers && w.proc == proc && Owes(s, s.consumers[w])
  }

  /** For every committed key of the file the environment has what saves put there since, and
      otherwise the file's value. */
  ghost predicate Overlaid(s: State, proc: nat) {
    forall k :: k in s.committed && k in s.file ==>
      && k in EnvOf(s, proc)
      && EnvOf(s, proc)[k] == if k in AheadOf(s, proc) then AheadOf(s, proc)[k] else s.file[k]
  }

  ghost predicate Mended(s: State, proc: nat) {
    SomeoneOwes(s, proc) || Overlaid(s, proc)
  }

  ghost predicate FileInv(s: State) {
    && (s.stamp.Some? ==> s.stamp.value in s.past) && (s.stamp.None? ==> s.file == map[])
    && s.committed <= s.saved
    && (s.saver.KeysRecorded? || s.saver.EnvWritten? ==> s.saver.values.Keys <= s.saved)
  }

  ghost predicate Inv(s: State) {
    && FileInv(s)
    && (forall w :: w in s.consumers ==> Stamps(s, s.consumers[w]) && Current(s, s.consumers[w]))
    && (forall w :: w in s.consumers ==> Mended(s, w.proc))
  }

  lemma FileKept(s: State, e: Event)
    requires FileInv(s)
    ensures FileInv(Next(s, e))
    ensures s.saved <= Next(s, e).saved
  {
    hide ConsumerNext;
  }

  /** No step disturbs a consumer other than its own, a restart of its process, and a new file,
      after which nobody has seen the stamp. */
  lemma OthersAsTheyWere(s: State, e: Event, w: Who)
    requires w in s.consumers
    ensures var s' := Next(s, e);
            && s'.consumers.Keys == s.consumers.Keys
            && (IsConsumerEvent(e) && e.who == w ==> s'.consumers[w] == ConsumerNext(s, s.consumers[w], e))
            && (!(IsConsumerEvent(e) && e.who == w) && !e.Restart? ==> s'.consumers[w] == s.consumers[w])
            && (e.Restart? ==> s'.consumers[w] == s.consumers[w] || s'.consumers[w] == Consumer(None, Idle, None))
  {
    hide ConsumerNext, EnvOf, AheadOf;
  }

  lemma OwnStepKept(s: State, c: Consumer, e: Event)
    requires FileInv(s) && Stamps(s, c) && Current(s, c)
    ensures var c' := ConsumerNext(s, c, e); Stamps(s, c') && Current(s, c')
  {
    if s.saved == {} {
      assert Restrict(s.file, {}) == map[] && Covers(s, map[]);
    }
  }

  /** A consumer at rest during a step that leaves the file alone, or changes it for good. */
  lemma RestKept(s: State, s': State, c: Consumer)
    requires FileInv(s) && Stamps(s, c) && Current(s, c) && s.saved <= s'.saved
    requires || (s'.stamp == s.stamp && s'.file == s.file && s'.committed == s.committed && s'.past == s.past)
             || (s'.stamp.Some? && s'.stamp.value !in s.past && s'.past == s.past + {s'.stamp.value})
    ensures Stamps(s', c) && Current(s', c)
  {
    if s'.stamp == s.stamp {
      assert forall snap :: Covers(s, snap) ==> Covers(s', snap);
    }
  }

  lemma FileSteps(s: State, e: Event)
    requires FileInv(s)
    ensures var s' := Next(s, e);
            || (s'.stamp == s.stamp && s'.file == s.file && s'.committed == s.committed && s'.past == s.past)
            || (s'.stamp.Some? && s'.stamp.value !in s.past && s'.past == s.past + {s'.stamp.value} && !IsConsumerEvent(e))
    ensures IsConsumerEvent(e) ==> Next(s, e).saved == s.saved
  {
    hide ConsumerNext, EnvOf, AheadOf;
  }

  lemma ConsumerKept(s: State, e: Event, w: Who)
    requires Inv(s) && w in s.consumers
    ensures var s' := Next(s, e);
            w in s'.consumers && Stamps(s', s'.consumers[w]) && Current(s', s'.consumers[w])
  {
    hide Mended, Next, Covers, ConsumerNext;
    OthersAsTheyWere(s, e, w);
    FileSteps(s, e);
    FileKept(s, e);
    var c := s.consumers[w];
    if IsConsumerEvent(e) && e.who == w {
      OwnStepKept(s, c, e);
      RestKept(s, Next(s, e), ConsumerNext(s, c, e));
    } else {
      RestKept(s, Next(s, e), c);
    }
  }

  /** A consumer that stops owing the current file leaves its environment in agreement. */
  lemma PaidInFull(s: State, e: Event, w: Who)
    requires FileInv(s) && w in s.consumers && Stamps(s, s.consumers[w]) && Current(s, s.consumers[w])
    requires var s' := Next(s, e); w in s'.consumers && Owes(s, s.consumers[w]) && !Owes(s', s'.consumers[w])
    ensures Overlaid(Next(s, e), w.proc)
  {
    hide Covers, EnvOf, AheadOf;
    OthersAsTheyWere(s, e, w);
    if e.Apply? { FreshApplication(s, w); }
  }

  /** A stale application may undo a newer one, but then its consumer is still owing. */
  lemma ApplicationKept(s: State, v: Who, w: Who)
    requires Inv(s) && w in s.consumers && Overlaid(s, w.proc)
    ensures Mended(Next(s, Apply(v)), w.proc)
  {
    hide Covers, Mended, FileInv, Agrees;
    if v in s.consumers && s.consumers[v].at.HaveVals? && v.proc == w.proc {
      var s', c := Next(s, Apply(v)), s.consumers[v];
      OthersAsTheyWere(s, Apply(v), v);
      if c.seen != s.stamp {
        assert Owes(s', s'.consumers[v]);
        assert SomeoneOwes(s', w.proc);
        Mends(s', w.proc);
      } else {
        assert Current(s, c);
        FreshApplication(s, v);
        Mends(s', w.proc);
      }
    } else {
      ElsewhereApplied(s, v, w.proc);
      Mends(Next(s, Apply(v)), w.proc);
    }
  }

  lemma Mends(s: State, proc: nat)
    requires SomeoneOwes(s, proc) || Overlaid(s, proc)
    ensures Mended(s, proc)
  {
  }

  lemma FreshApplication(s: State, v: Who)
    requires v in s.consumers && s.consumers[v].at.HaveVals?
    requires s.committed <= s.consumers[v].at.keys && s.consumers[v].at.snap == Restrict(s.file, s.consumers[v].at.keys)
    ensures Overlaid(Next(s, Apply(v)), v.proc)
  {
    hide ConsumerNext;
  }

  lemma ElsewhereApplied(s: State, v: Who, proc: nat)
    requires !(v in s.consumers && s.consumers[v].at.HaveVals? && v.proc == proc) && Overlaid(s, proc)
    ensures Overlaid(Next(s, Apply(v)), proc)
  {
    hide ConsumerNext;
  }

  /** An environment that is in order stays so, or someone owes. */
  lemma EnvironmentKept(s: State, e: Event, w: Who)
    requires Inv(s) && w in s.consumers && Overlaid(s, w.proc)
    ensures Mended(Next(s, e), w.proc)
  {
    hide Covers, Restrict, Current, ConsumerNext, Next, Overlaid, EnvOf, AheadOf;
    if e.Apply? {
      ApplicationKept(s, e.who, w);
    } else if Next(s, e).stamp == s.stamp && !(e.Restart? && e.proc == w.proc) {
      OverlayKept(s, e, w.proc);
    } else {
      assert Stamps(s, s.consumers[w]);
      UnseenAfter(s, e, w);
    }
  }

  lemma OverlayKept(s: State, e: Event, proc: nat)
    requires Overlaid(s, proc) && Next(s, e).stamp == s.stamp && !e.Apply? && !(e.Restart? && e.proc == proc)
    requires s.stamp.Some? ==> s.stamp.value in s.past
    ensures Overlaid(Next(s, e), proc)
  {
    hide ConsumerNext, Restrict;
  }

  /** A new file is unseen by everyone, and a restarted process has seen nothing. */
  lemma UnseenAfter(s: State, e: Event, w: Who)
    requires FileInv(s) && w in s.consumers && Stamps(s, s.consumers[w])
    requires Next(s, e).stamp != s.stamp || (e.Restart? && e.proc == w.proc)
    ensures Mended(Next(s, e), w.proc)
  {
    hide ConsumerNext, Restrict, EnvOf, AheadOf;
    OthersAsTheyWere(s, e, w);
  }

  lemma MendedKept(s: State, e: Event, w: Who)
    requires Inv(s) && w in s.consumers
    ensures Mended(Next(s, e), w.proc)
  {
    hide Covers, Overlaid, Next;
    var s' := Next(s, e);
    if SomeoneOwes(s, w.proc) {
      var v :| v in s.consumers && v.proc == w.proc && Owes(s, s.consumers[v]);
      OthersAsTheyWere(s, e, v);
      if !Owes(s', s'.consumers[v]) { PaidInFull(s, e, v); }
    } else {
      EnvironmentKept(s, e, w);
    }
  }

  lemma NextKeepsInv(s: State, e: Event)
    requires Inv(s)
    ensures Inv(Next(s, e))
  {
    hide Next, Stamps, Current, Mended, FileInv;
    FileKept(s, e);
    var s' := Next(s, e);
    assert s'.consumers.Keys == s.consumers.Keys by { KeysKept(s, e); }
    forall w | w in s'.consumers
      ensures Stamps(s', s'.consumers[w]) && Current(s', s'.consumers[w]) && Mended(s', w.proc)
    {
      ConsumerKept(s, e, w);
      MendedKept(s, e, w);
    }
  }

  lemma KeysKept(s: State, e: Event)
    ensures Next(s, e).consumers.Keys == s.consumers.Keys
  {
  }

  lemma {:induction false} RunKeepsInv(s: State, es: seq<Event>)
    requires Initial(s)
    ensures Inv(Run(s, es))
  {
    hide Next;
    if es == [] {
      forall w | w in s.consumers ensures Mended(s, w.proc) { assert s.stamp.Some? ==> Owes(s, s.consumers[w]); }
    } else {
      RunKeepsInv(s, es[..|es| - 1]);
      NextKeepsInv(Run(s, es[..|es| - 1]), es[|es| - 1]);
    }
  }

  // ----- the main results -----

  ghost predicate NewFile(s: State, e: Event) {
    Next(s, e).stamp != s.stamp
  }

  /** Whoever has marked the current stamp and read the recorded keys has read all the keys
      committed with that file. */
  lemma KeysCoverTheFile(s: State, es: seq<Event>, w: Who)
    requires Initial(s)
    ensures var r := Run(s, es);
            w in r.consumers && r.consumers[w].seen == r.stamp && (r.consumers[w].at.HaveKeys? || r.consumers[w].at.HaveVals?)
            ==> r.committed <= r.consumers[w].at.keys
  {
    hide Run, Mended, Stamps, Covers;
    RunKeepsInv(s, es);
  }

  /** Two files differ at most on `keys`. */
  ghost predicate SameOutside(a: Vals, b: Vals, keys: set<string>) {
    forall k :: k !in keys ==> (k in a <==> k in b) && (k in a ==> a[k] == b[k])
  }

  /** A save that gets its file in place writes its own values over the file it read when it began,
      so it adds exactly its values to the file it replaces if and only if those two files agree
      outside its keys. Its keys are committed with it, and only saves and edits change the file. */
  lemma NoLostSave(s: State, es: seq<Event>, e: Event)
    requires Initial(s)
    ensures var r, r' := Run(s, es), Run(s, es + [e]);
            && (NewFile(r, e) && e.Replace? ==>
                  && r.saver.EnvWritten?
                  && (r'.file == r.file + r.saver.values <==> SameOutside(r.saver.base, r.file, r.saver.values.Keys))
                  && (forall k :: k in r.saver.values ==> k in r'.file && r'.file[k] == r.saver.values[k])
                  && r.saver.values.Keys <= r'.committed && r'.committed == r'.saved)
            && (!e.Replace? && !e.Edit? ==> r'.file == r.file && r'.stamp == r.stamp)
  {
    hide ConsumerNext, Mended, Stamps, Current, SameOutside, EnvOf, AheadOf;
    RunKeepsInv(s, es);
    assert (es + [e])[..|es|] == es;
    var r := Run(s, es);
    if r.saver.EnvWritten? { OverlayExactly(r.saver.base, r.file, r.saver.values); }
  }

  lemma OverlayExactly(a: Vals, b: Vals, values: Vals)
    ensures a + values == b + values <==> SameOutside(a, b, values.Keys)
  {
    if a + values == b + values {
      forall k | k !in values ensures (k in a <==> k in b) && (k in a ==> a[k] == b[k]) {
        assert k in a <==> k in a + values;
        assert k in b <==> k in b + values;
        assert k in a ==> (a + values)[k] == a[k];
        assert k in b ==> (b + values)[k] == b[k];
      }
    }
  }

  /** The file a save under way starts from is the one that was there when it began. */
  lemma {:induction false} BaseWasRead(s: State, es: seq<Event>) returns (i: nat)
    requires Initial(s) && !Run(s, es).saver.Free?
    ensures var saver := Run(s, es).saver;
            && i < |es| && es[i] == Begin(saver.proc, saver.values)
            && Run(s, es[..i]).saver.Free? && Run(s, es[..i]).file == saver.base
  {
    hide Next;
    var n := |es| - 1;
    var r := Run(s, es[..n]);
    SaverStep(r, es[n]);
    if r.saver.Free? {
      i := n;
    } else {
      i := BaseWasRead(s, es[..n]);
      assert es[..n][..i] == es[..i];
    }
  }

  lemma SaverStep(s: State, e: Event)
    ensures var saver := Next(s, e).saver;
            && (s.saver.Free? && !saver.Free? ==> e == Begin(saver.proc, saver.values) && saver.base == s.file)
            && (!s.saver.Free? && !saver.Free? ==>
                  saver.proc == s.saver.proc && saver.values == s.saver.values && saver.base == s.saver.base)
  {
    hide ConsumerNext;
  }

  /** An edit between a save's reading of the file and its swap is lost, whatever it wrote. */
  lemma EditDuringSaveIsLost(s: State, proc: nat, values: Vals, edit: Vals, t: int, u: int)
    requires s.saver.Free? && values != map[] && t !in s.past && u !in s.past && t != u
    ensures var r := Next(Next(Next(Next(Next(s, Begin(proc, values)), Edit(edit, t)), RecordKeys), WriteEnv), Replace(u));
            r.file == s.file + values && r.stamp == Some(u)
  {
    hide ConsumerNext, EnvOf, AheadOf;
    var s1 := Next(s, Begin(proc, values));
    var s2 := Next(s1, Edit(edit, t));
    assert s2.saver == Prepared(proc, values, s.file) && s2.past == s.past + {t};
    var s3 := Next(s2, RecordKeys);
    var s4 := Next(s3, WriteEnv);
    assert s4.saver == EnvWritten(proc, values, s.file) && s4.past == s2.past;
  }

  /** The consumer, in a call or not, has not taken up the current stamp. */
  ghost predicate Behind(s: State, w: Who) {
    w in s.consumers && s.stamp.Some? && s.consumers[w].seen != s.stamp && s.consumers[w].at != Statted(s.stamp)
  }

  lemma {:induction false} BehindUntilStat(s: State, es: seq<Event>, w: Who)
    requires Inv(s) && Behind(s, w) && Stat(w) !in es
    ensures Inv(Run(s, es)) && Behind(Run(s, es), w)
  {
    hide Next, Mended, Current, Stamps, FileInv;
    if es != [] {
      var n := |es| - 1;
      BehindUntilStat(s, es[..n], w);
      NextKeepsInv(Run(s, es[..n]), es[n]);
      BehindStep(Run(s, es[..n]), es[n], w);
    }
  }

  lemma BehindStep(s: State, e: Event, w: Who)
    requires Inv(s) && Behind(s, w) && e != Stat(w)
    ensures Behind(Next(s, e), w)
  {
    hide Mended, Current, Next;
    OthersAsTheyWere(s, e, w);
    FileSteps(s, e);
    assert Stamps(s, s.consumers[w]);
  }

  /** A save landing anywhere inside a consumer's call, in particular between its stat and its
      read, leaves the consumer behind however the call ends, and its next call reads again. */
  lemma OvertakenCallReadsAgain(s: State, pre: seq<Event>, e: Event, post: seq<Event>, w: Who)
    requires Initial(s) && NewFile(Run(s, pre), e) && w in s.consumers && Stat(w) !in post
    ensures var r := Run(Run(s, pre + [e]), post);
            && Behind(r, w)
            && (r.consumers[w].at.Idle? ==>
                  var again := Run(r, [Stat(w), Compare(w)]);
                  w in again.consumers && again.consumers[w].at.Marked? && again.consumers[w].seen == again.stamp)
  {
    hide Next, Mended, Current, Stamps, FileInv;
    var r0 := Run(s, pre);
    RunKeepsInv(s, pre);
    RunKeepsInv(s, pre + [e]);
    assert (pre + [e])[..|pre|] == pre;
    ConsumersStay(s, pre);
    NewFileLeavesBehind(r0, e, w);
    BehindUntilStat(Next(r0, e), post, w);
    if Run(Next(r0, e), post).consumers[w].at.Idle? { BehindCompares(Run(Next(r0, e), post), w); }
  }

  lemma {:induction false} ConsumersStay(s: State, es: seq<Event>)
    ensures Run(s, es).consumers.Keys == s.consumers.Keys
  {
    hide Next;
    if es != [] {
      ConsumersStay(s, es[..|es| - 1]);
      KeysKept(Run(s, es[..|es| - 1]), es[|es| - 1]);
    }
  }

  lemma NewFileLeavesBehind(s: State, e: Event, w: Who)
    requires Inv(s) && NewFile(s, e) && w in s.consumers
    ensures Behind(Next(s, e), w)
  {
    hide Mended, Current, Next;
    OthersAsTheyWere(s, e, w);
    FileSteps(s, e);
    NewFileEvents(s, e);
    assert Stamps(s, s.consumers[w]);
  }

  lemma NewFileEvents(s: State, e: Event)
    requires NewFile(s, e)
    ensures e.Replace? || e.Edit?
    ensures var s' := Next(s, e); s'.ahead == map[] && s'.committed == s'.saved
  {
    hide ConsumerNext;
  }

  lemma BehindCompares(s: State, w: Who)
    requires Behind(s, w) && s.consumers[w].at.Idle?
    ensures var again := Run(s, [Stat(w), Compare(w)]);
            w in again.consumers && again.consumers[w].at.Marked? && again.consumers[w].seen == again.stamp
  {
    var es := [Stat(w), Compare(w)];
    assert es[..1] == [Stat(w)] && es[..1][..0] == [];
    assert Run(s, es[..1]) == Next(s, Stat(w));
  }

  // ----- agreement once everyone has looked -----

  /** All consumers of the process have finished a call that took up the current file. */
  ghost predicate AtRest(s: State, proc: nat) {
    && s.stamp.Some?
    && forall w :: w in s.consumers && w.proc == proc ==> s.consumers[w].at.Idle? && s.consumers[w].seen == s.stamp
  }

  /** What saves have left in the environment beyond the file agrees with the file. */
  ghost predicate AheadAgrees(s: State, proc: nat) {
    forall k :: k in AheadOf(s, proc) && k in s.committed && k in s.file ==> AheadOf(s, proc)[k] == s.file[k]
  }

  /** After any run, a process at rest agrees with the file on all committed keys exactly when
      what failed or unfinished saves left in its environment does. */
  lemma AgreesExactly(s: State, es: seq<Event>, w: Who)
    requires Initial(s) && w in Run(s, es).consumers && AtRest(Run(s, es), w.proc)
    ensures Agrees(Run(s, es), w.proc) <==> AheadAgrees(Run(s, es), w.proc)
  {
    hide Run, Stamps, Current, FileInv, EnvOf, AheadOf;
    RunKeepsInv(s, es);
    assert Mended(Run(s, es), w.proc);
  }

  ghost predicate NoneAhead(s: State) {
    forall p :: AheadOf(s, p) == map[]
  }

  /** Only calls of consumers and restarts of processes. */
  ghost predicate Quiet(es: seq<Event>) {
    forall i :: 0 <= i < |es| ==> IsConsumerEvent(es[i]) || es[i].Restart?
  }

  /** In the run `es`, consumer `w` starts a call that no restart of its process cuts short. */
  ghost predicate Starts(s: State, es: seq<Event>, w: Who) {
    exists i :: StartsAt(s, es, w, i)
  }

  ghost predicate StartsAt(s: State, es: seq<Event>, w: Who, i: int) {
    && 0 <= i < |es| && es[i] == Stat(w)
    && w in Run(s, es[..i]).consumers && Run(s, es[..i]).consumers[w].at.Idle?
    && forall j :: i < j < |es| ==> !(es[j].Restart? && es[j].proc == w.proc)
  }

  ghost predicate Looked(s: State, w: Who) {
    w in s.consumers && (s.consumers[w].seen == s.stamp || s.consumers[w].at == Statted(s.stamp))
  }

  lemma LookedStep(s: State, e: Event, w: Who)
    requires Inv(s) && w in s.consumers && s.stamp.Some?
    requires IsConsumerEvent(e) || (e.Restart? && e.proc != w.proc)
    requires Looked(s, w) || (e == Stat(w) && s.consumers[w].at.Idle?)
    ensures Looked(Next(s, e), w)
  {
    hide Mended, Next;
    OthersAsTheyWere(s, e, w);
    FileSteps(s, e);
    StillStep(s, e);
    if e.Restart? { RestartElsewhere(s, e, w); }
    assert Stamps(s, s.consumers[w]) && Current(s, s.consumers[w]);
  }

  lemma RestartElsewhere(s: State, e: Event, w: Who)
    requires e.Restart? && e.proc != w.proc && w in s.consumers
    ensures w in Next(s, e).consumers && Next(s, e).consumers[w] == s.consumers[w]
  {
  }

  lemma StillStep(s: State, e: Event)
    requires IsConsumerEvent(e) || e.Restart?
    ensures var r := Next(s, e); r.stamp == s.stamp && r.committed == s.committed && r.saved == s.saved
    ensures NoneAhead(s) ==> NoneAhead(Next(s, e))
  {
    hide ConsumerNext, EnvOf, Restrict;
    if NoneAhead(s) {
      forall p ensures AheadOf(Next(s, e), p) == map[] { assert AheadOf(s, p) == map[]; }
    }
  }

  lemma {:induction false} LooksOnce(s: State, es: seq<Event>, w: Who)
    requires Inv(s) && Quiet(es) && s.stamp.Some? && NoneAhead(s)
    ensures var r := Run(s, es);
            && Inv(r) && r.stamp == s.stamp && NoneAhead(r) && r.committed == s.committed && r.saved == s.saved
            && (Starts(s, es, w) ==> Looked(r, w))
  {
    hide Next, Mended, Current, Stamps, FileInv, Looked, NoneAhead;
    if es != [] {
      var n := |es| - 1;
      var init := es[..n];
      LooksOnce(s, init, w);
      var r := Run(s, init);
      NextKeepsInv(r, es[n]);
      StillStep(r, es[n]);
      if i :| StartsAt(s, es, w, i) {
        StartsEarlier(s, es, w, i);
        ConsumersStay(s, init);
        LookedStep(r, es[n], w);
      }
    }
  }

  lemma StartsEarlier(s: State, es: seq<Event>, w: Who, i: int)
    requires StartsAt(s, es, w, i)
    ensures var n := |es| - 1;
            && w in Run(s, es[..n]).consumers
            && (i < n ==> StartsAt(s, es[..n], w, i) && !(es[n].Restart? && es[n].proc == w.proc))
            && (i == n ==> es[n] == Stat(w) && Run(s, es[..n]).consumers[w].at.Idle?)
  {
    hide Next;
    var n := |es| - 1;
    ConsumersStay(s, es[..i]);
    ConsumersStay(s, es[..n]);
    if i < n { assert es[..n][i] == es[i] && es[..n][..i] == es[..i]; }
  }

  /** After the file changed for the last time, once every consumer has completed a call it
      started since, every environment has the file's value of every recorded key in the file,
      and every consumer has acted on exactly those values. Processes may restart meanwhile. */
  lemma EveryoneAgrees(s: State, pre: seq<Event>, e: Event, post: seq<Event>)
    requires Initial(s) && NewFile(Run(s, pre), e) && Quiet(post)
    requires var r := Run(s, pre + [e]);
             forall w :: w in r.consumers ==>
               Starts(r, post, w) && w in Run(r, post).consumers && Run(r, post).consumers[w].at.Idle?
    ensures var r := Run(Run(s, pre + [e]), post);
            forall w :: w in r.consumers ==>
              && r.consumers[w].applied == Some(Restrict(r.file, r.saved))
              && forall k :: k in r.saved && k in r.file ==> k in EnvOf(r, w.proc) && EnvOf(r, w.proc)[k] == r.file[k]
  {
    hide Next, Mended, Current, Stamps, FileInv, Starts, Quiet, EnvOf, Looked, NoneAhead;
    var r0 := Run(s, pre + [e]);
    var r := Run(r0, post);
    RunKeepsInv(s, pre);
    RunKeepsInv(s, pre + [e]);
    assert (pre + [e])[..|pre|] == pre;
    NewFileEvents(Run(s, pre), e);
    NewFileStamped(Run(s, pre), e);
    assert NoneAhead(r0) by { EmptyAhead(r0); }
    ConsumersStay(r0, post);
    forall w | w in r.consumers ensures Looked(r, w) && Inv(r) && NoneAhead(r) && r.committed == r.saved && r.stamp.Some? {
      LooksOnce(r0, post, w);
    }
    forall w | w in r.consumers
      ensures r.consumers[w].applied == Some(Restrict(r.file, r.saved)) && Agrees(r, w.proc)
    {
      AllPaid(r, w);
    }
  }

  lemma EmptyAhead(s: State)
    ensures s.ahead == map[] ==> NoneAhead(s)
  {
  }

  lemma NewFileStamped(s: State, e: Event)
    requires NewFile(s, e) && FileInv(s)
    ensures Next(s, e).stamp.Some?
  {
    hide ConsumerNext;
  }

  lemma AllPaid(r: State, w: Who)
    requires Inv(r) && NoneAhead(r) && r.committed == r.saved && r.stamp.Some? && w in r.consumers
    requires forall v :: v in r.consumers ==> Looked(r, v) && r.consumers[v].at.Idle?
    ensures r.consumers[w].applied == Some(Restrict(r.file, r.saved)) && Agrees(r, w.proc)
  {
    hide Restrict, Stamps, EnvOf, AheadOf;
    assert Current(r, r.consumers[w]) && Mended(r, w.proc) && Looked(r, w);
    assert Covers(r, r.consumers[w].applied.value);
    assert forall keys :: r.committed <= keys <= r.saved ==> keys == r.saved;
    assert AheadOf(r, w.proc) == map[];
  }

  // ----- failed saves -----

  /** The events of a save that fails after writing its process's environment. */
  function FailedSave(proc: nat, values: Vals): seq<Event> {
    [Begin(proc, values), RecordKeys, WriteEnv, Abort]
  }

  lemma FailedSaveLeaves(s: State, proc: nat, values: Vals)
    requires s.saver.Free?
    ensures var r := Run(s, FailedSave(proc, values));
            && r.stamp == s.stamp && r.file == s.file && r.committed == s.committed
            && r.consumers == s.consumers && r.saver.Free? && EnvOf(r, proc) == EnvOf(s, proc) + values
  {
    hide ConsumerNext, Run;
    var es := FailedSave(proc, values);
    RunFour(s, es);
    assert values == map[] ==> EnvOf(s, proc) + values == EnvOf(s, proc);
  }

  lemma RunFour(s: State, es: seq<Event>)
    requires |es| == 4
    ensures Run(s, es) == Next(Next(Next(Next(s, es[0]), es[1]), es[2]), es[3])
  {
    hide Next;
    assert es[..1][..0] == [];
    assert es[..2][..1] == es[..1];
    assert es[..3][..2] == es[..2];
    assert Run(s, es[..1]) == Next(s, es[0]);
    assert Run(s, es[..2]) == Next(Run(s, es[..1]), es[1]);
    assert Run(s, es[..3]) == Next(Run(s, es[..2]), es[2]);
  }

  /** A save that fails after writing its process's environment leaves that environment in
      agreement with the file exactly when it brought nothing new for a committed key of the file;
      and a consumer that has seen the file does not look again. */
  lemma FailedSaveTears(s: State, proc: nat, values: Vals, w: Who)
    requires s.saver.Free? && Agrees(s, proc)
    ensures var r := Run(s, FailedSave(proc, values));
            && (Agrees(r, proc) <==>
                  forall k :: k in values && k in s.committed && k in s.file ==> values[k] == s.file[k])
            && (w in s.consumers && s.stamp.Some? && s.consumers[w].at.Idle? && s.consumers[w].seen == s.stamp ==>
                  Next(Next(r, Stat(w)), Compare(w)) == r)
  {
    hide Next, Run, EnvOf;
    var r := Run(s, FailedSave(proc, values));
    FailedSaveLeaves(s, proc, values);
    assert EnvOf(r, proc) == EnvOf(s, proc) + values;
    if w in s.consumers && s.stamp.Some? && s.consumers[w].at.Idle? && s.consumers[w].seen == s.stamp {
      ComparesEqual(r, w);
    }
  }

  /** A call that finds its own stamp changes nothing. */
  lemma ComparesEqual(s: State, w: Who)
    requires w in s.consumers && s.consumers[w].at.Idle? && s.stamp.Some? && s.consumers[w].seen == s.stamp
    ensures Next(Next(s, Stat(w)), Compare(w)) == s
  {
    assert Next(Next(s, Stat(w)), Compare(w)).consumers == s.consumers;
  }

  // ----- what stays as it was -----

  /** The variable `k` of process `proc` is as it was. */
  ghost predicate SameVariable(a: State, b: State, proc: nat, k: string) {
    (k in EnvOf(b, proc) <==> k in EnvOf(a, proc)) && (k in EnvOf(a, proc) ==> EnvOf(b, proc)[k] == EnvOf(a, proc)[k])
  }

  lemma SameEnv(a: State, b: State)
    requires a.env == b.env
    ensures forall p, k :: SameVariable(a, b, p, k)
  {
  }

  /** Writing values into one environment touches no other variable. */
  lemma WritesOnly(a: State, b: State, proc: nat, values: Vals)
    requires b.env == a.env[proc := EnvOf(a, proc) + values]
    ensures EnvOf(b, proc) == EnvOf(a, proc) + values
    ensures forall p, k :: !(p == proc && k in values) ==> SameVariable(a, b, p, k)
  {
    forall p, k | !(p == proc && k in values) ensures SameVariable(a, b, p, k) {
      assert p != proc ==> EnvOf(b, p) == EnvOf(a, p);
    }
  }

  /** A step writes an environment as the saver, as an application or at a restart, or not at all. */
  lemma EnvSteps(s: State, e: Event)
    ensures var s' := Next(s, e);
            || s'.env == s.env
            || (e.WriteEnv? && s.saver.KeysRecorded? && s'.env == s.env[s.saver.proc := EnvOf(s, s.saver.proc) + s.saver.values])
            || (e.Apply? && e.who in s.consumers && s.consumers[e.who].at.HaveVals?
                && s'.env == s.env[e.who.proc := EnvOf(s, e.who.proc) + s.consumers[e.who].at.snap])
            || (e.Restart? && s'.env == s.env[e.proc := e.env])
  {
    hide ConsumerNext, EnvOf, AheadOf;
    if e.Apply? && e.who in s.consumers { SameEnvOf(At(s, e.who, ConsumerNext(s, s.consumers[e.who], e)), s, e.who.proc); }
  }

  lemma SameEnvOf(a: State, b: State, proc: nat)
    ensures a.env == b.env ==> EnvOf(a, proc) == EnvOf(b, proc)
  {
  }

  lemma UnrecordedStep(s: State, e: Event, proc: nat, k: string)
    requires Inv(s) && k !in s.saved && !(e.Restart? && e.proc == proc)
    ensures SameVariable(s, Next(s, e), proc, k)
  {
    hide Next, Mended, Current, EnvOf, SameVariable;
    var s' := Next(s, e);
    EnvSteps(s, e);
    if s'.env == s.env {
      SameEnv(s, s');
    } else if e.WriteEnv? {
      WritesOnly(s, s', s.saver.proc, s.saver.values);
    } else if e.Apply? {
      assert Stamps(s, s.consumers[e.who]);
      WritesOnly(s, s', e.who.proc, s.consumers[e.who].at.snap);
    } else {
      RestartsOnly(s, s', e.proc, e.env, proc, k);
    }
  }

  lemma RestartsOnly(a: State, b: State, proc: nat, env: Vals, other: nat, k: string)
    requires b.env == a.env[proc := env] && other != proc
    ensures SameVariable(a, b, other, k)
  {
  }

  lemma SavedGrows(s: State, e: Event)
    ensures s.saved <= Next(s, e).saved
  {
    hide ConsumerNext, EnvOf, AheadOf;
  }

  /** Whatever the saves, edits and calls of a run, a variable outside the recorded keys changes in an
      environment only when that process restarts. */
  lemma {:induction false} UnrecordedStays(s: State, es: seq<Event>, proc: nat, k: string)
    requires Initial(s) && k !in Run(s, es).saved
    requires forall i :: 0 <= i < |es| ==> !(es[i].Restart? && es[i].proc == proc)
    ensures SameVariable(s, Run(s, es), proc, k)
  {
    hide Next, EnvOf;
    if es != [] {
      var n := |es| - 1;
      SavedGrows(Run(s, es[..n]), es[n]);
      UnrecordedStays(s, es[..n], proc, k);
      RunKeepsInv(s, es[..n]);
      UnrecordedStep(Run(s, es[..n]), es[n], proc, k);
    }
  }

  // ----- the two operations when nothing interleaves -----

  lemma NothingToDo(s: State, w: Who)
    requires w in s.consumers && s.consumers[w].at.Idle?
    ensures Next(s, ReadKeys(w)) == s && Next(s, ReadFile(w)) == s && Next(s, Apply(w)) == s && Next(s, Compare(w)) == s
    ensures s.stamp.None? ==> Next(s, Stat(w)) == s
  {
    assert s.consumers[w := s.consumers[w]] == s.consumers;
  }

  lemma Marks(s: State, w: Who)
    requires w in s.consumers && s.consumers[w].at.Idle? && s.stamp.Some? && s.consumers[w].seen != s.stamp
    ensures Next(Next(s, Stat(w)), Compare(w)) == At(s, w, s.consumers[w].(seen := s.stamp, at := Marked))
  {
  }

  lemma BaselineOnly(s: State, w: Who)
    requires w in s.consumers && s.consumers[w].at.Marked? && s.saved == {}
    ensures var c := s.consumers[w];
            Next(s, ReadKeys(w)) == At(s, w, c.(at := Idle, applied := if c.applied.None? then Some(map[]) else c.applied))
  {
  }

  lemma Applies(s: State, w: Who)
    requires w in s.consumers && s.consumers[w].at.Marked? && s.saved != {}
    ensures var c, snap := s.consumers[w], Restrict(s.file, s.saved);
            Next(Next(Next(s, ReadKeys(w)), ReadFile(w)), Apply(w)) ==
            Applied(At(s, w, c.(at := Idle, applied := Some(snap))), w.proc, snap)
  {
    hide Restrict, Applied;
    var c, snap := s.consumers[w], Restrict(s.file, s.saved);
    var s1 := At(s, w, c.(at := HaveKeys(s.saved)));
    var s2 := At(s, w, c.(at := HaveVals(s.saved, snap)));
    assert Next(s, ReadKeys(w)) == s1;
    assert Next(s1, ReadFile(w)) == s2;
    assert At(s2, w, c.(at := Idle, applied := Some(snap))) == At(s, w, c.(at := Idle, applied := Some(snap)));
  }

  class Host {
    var s: State

    constructor (s: State)
      ensures this.s == s
    {
      this.s := s;
    }

    /** `sync_from_file`: tells whether the values this consumer acts on changed. */
    method SyncFromFile(w: Who) returns (changed: bool)
      requires w in s.consumers && s.consumers[w].at.Idle?
      modifies this
      ensures s == Next(Next(Next(Next(Next(old(s), Stat(w)), Compare(w)), ReadKeys(w)), ReadFile(w)), Apply(w))
      ensures w in s.consumers && s.consumers[w].at.Idle?
      ensures s.stamp.Some? ==> s.consumers[w].seen == s.stamp
      ensures changed <==> old(s).consumers[w].applied.Some? && s.consumers[w].applied != old(s).consumers[w].applied
      ensures forall p, k :: !(p == w.proc && k in old(s).saved && k in old(s).file) ==> SameVariable(old(s), s, p, k)
      ensures old(s).stamp.Some? && old(s).consumers[w].seen != old(s).stamp ==>
                forall k :: k in s.saved && k in s.file ==> k in EnvOf(s, w.proc) && EnvOf(s, w.proc)[k] == s.file[k]
      ensures s.saved == old(s).saved && s.file == old(s).file && s.stamp == old(s).stamp && s.saver == old(s).saver
      ensures s.consumers.Keys == old(s).consumers.Keys
      ensures forall v :: v in s.consumers && v != w ==> s.consumers[v] == old(s).consumers[v]
    {
      hide Next, EnvOf, AheadOf, SameVariable;
      var c := s.consumers[w];
      SameEnv(s, s);
      if s.stamp.None? {
        NothingToDo(s, w);
        return false;
      }
      var mtime := s.stamp;
      if c.seen == mtime {
        ComparesEqual(s, w);
        NothingToDo(s, w);
        return false;
      }
      Marks(s, w);
      c := c.(seen := mtime, at := Marked);
      s := At(s, w, c);
      var keys := s.saved;
      if keys == {} {
        BaselineOnly(s, w);
        c := c.(at := Idle, applied := if c.applied.None? then Some(map[]) else c.applied);
        s := At(s, w, c);
        SameEnv(old(s), s);
        NothingToDo(s, w);
        return false;
      }
      var snap := Restrict(s.file, keys);
      Applies(s, w);
      changed := c.applied.Some? && c.applied != Some(snap);
      ghost var ready := At(s, w, c.(at := Idle, applied := Some(snap)));
      s := Applied(At(s, w, c.(at := Idle, applied := Some(snap))), w.proc, snap);
      SameEnvOf(ready, old(s), w.proc);
      WritesOnly(old(s), s, w.proc, snap);
    }

    /** `save`, when every step succeeds: keys first, then this environment, the file last. */
    method Save(proc: nat, values: Vals, stamp: int)
      requires s.saver.Free? && stamp !in s.past
      modifies this
      ensures s == if values == map[] then old(s)
                   else Next(Next(Next(Next(old(s), Begin(proc, values)), RecordKeys), WriteEnv), Replace(stamp))
      ensures s.file == old(s).file + values && s.saved == old(s).saved + values.Keys
      ensures EnvOf(s, proc) == EnvOf(old(s), proc) + values
      ensures values != map[] ==> s.stamp == Some(stamp)
      ensures forall p, k :: !(p == proc && k in values) ==> SameVariable(old(s), s, p, k)
      ensures s.consumers == old(s).consumers
    {
      hide EnvOf, AheadOf, SameVariable, Next;
      SameEnv(s, s);
      SavesInSteps(s, proc, values, stamp);
      if values == map[] {
        EmptySave(s, proc, values);
        return;
      }
      var text := s.file + values;
      s := s.(saved := s.saved + values.Keys);
      s := s.(env := s.env[proc := EnvOf(s, proc) + values], ahead := s.ahead[proc := AheadOf(s, proc) + values]);
      s := Stamped(s, text, stamp);
      SameEnvOf(old(s).(saved := old(s).saved + values.Keys), old(s), proc);
      WritesOnly(old(s), s, proc, values);
    }
  }

  lemma EmptySave(s: State, proc: nat, values: Vals)
    requires values == map[]
    ensures s.file == s.file + values && s.saved == s.saved + values.Keys && EnvOf(s, proc) == EnvOf(s, proc) + values
  {
  }

  /** The four steps of a save that succeeds. */
  lemma SavesInSteps(s: State, proc: nat, values: Vals, stamp: int)
    requires s.saver.Free? && stamp !in s.past
    ensures values != map[] ==>
              Next(Next(Next(Next(s, Begin(proc, values)), RecordKeys), WriteEnv), Replace(stamp)) ==
              Stamped(s.(saved := s.saved + values.Keys, env := s.env[proc := EnvOf(s, proc) + values]), s.file + values, stamp)
  {
    hide ConsumerNext, EnvOf, AheadOf;
    if values != map[] {
      var s1 := s.(saver := Prepared(proc, values, s.file));
      var s2 := s1.(saved := s.saved + values.Keys, saver := KeysRecorded(proc, values, s.file));
      assert Next(s, Begin(proc, values)) == s1 && Next(s1, RecordKeys) == s2;
      SameEnvOf(s2, s, proc);
    }
  }
}

/** Operations on every dongle present: fcd_for_each and the reset callback of lib/fcd_common.c, and the flash
    callback and action sequence of src/flash.c. */
module Fleet {
  import opened Bytes
  import opened Transport
  import opened Flasher
  import opened Enumeration
  import Timing

  const FCD_USB_VID: Word16 := 0x04D8
  const FCD_USB_PID: Word16 := 0xFB56

  /** The actions besides the reset, and the image. */
  datatype Context = Context(erase: bool, write: bool, verify: bool, image: Image)

  /** What fcd_for_each is called with. */
  datatype Callback = FuncubeFlash(context: Context) | FcdReset(command: Byte)

  // ---------------------------------------------------------------------------------------------
  // Specification of the callbacks
  // ---------------------------------------------------------------------------------------------

  /** hung: the callback is still waiting for the dongle; result is what it would return if that came to
      nothing. */
  datatype Called = Called(result: int, world: World, hung: bool)
  {
    predicate Succeeded() {
      result == 0 && !hung
    }
  }

  /** fcd_open with a path opens the device once, to validate the path. */
  function Opened(w: World): World {
    World(w.dev, Rest(w))
  }

  function EraseIf(on: bool, w: World): Called {
    if !on then Called(0, w, false)
    else var io := Io(w, CMD_ERASE_APPLICATION, 0, [], 0); Called(io.result, io.world, io.hung)
  }

  function FlashIf(on: bool, before: Called, task: Task, image: Image): Called {
    if before.result != 0 || !on then before
    else var loop := Flash(task, before.world, image); Called(loop.code, loop.world, loop.hung)
  }

  function FlashOne(ctx: Context, w: World): Called {
    if !Next(w).opens then Called(-1, Opened(w), false)
    else
      var erased := EraseIf(ctx.erase, Opened(w));
      var written := FlashIf(ctx.write, erased, Write, ctx.image);
      FlashIf(ctx.verify, written, Verify, ctx.image)
  }

  /** The reset callback: always 0, if it returns. */
  function ResetOne(command: Byte, w: World): Called {
    if !Next(w).opens then Called(0, Opened(w), false)
    else var io := Io(Opened(w), command, 0, [], 0); Called(0, io.world, io.hung)
  }

  /** A callback as what it does to a dongle. */
  type Effect = World -> Called

  function Flashing(ctx: Context): Effect {
    (w: World) => FlashOne(ctx, w)
  }

  function Resetting(command: Byte): Effect {
    (w: World) => ResetOne(command, w)
  }

  function EffectOf(cb: Callback): Effect {
    match cb
    case FuncubeFlash(ctx) => Flashing(ctx)
    case FcdReset(command) => Resetting(command)
  }

  // ---------------------------------------------------------------------------------------------
  // Specification of fcd_for_each
  // ---------------------------------------------------------------------------------------------

  type Worlds = map<Path, World>

  predicate Covers(worlds: Worlds, paths: seq<Option<Path>>) {
    forall p <- paths :: p.Some? ==> p.value in worlds
  }

  /** hung: the walk is still in a call of the callback. */
  datatype Outcome = Outcome(result: int, worlds: Worlds, hung: bool)
  {
    predicate Completed() {
      result == 0 && !hung
    }
  }

  /** Calls the callback on each path in turn, up to the first error or for as long as the calls return. */
  function Visit(f: Effect, worlds: Worlds, paths: seq<Option<Path>>): (o: Outcome)
    requires Covers(worlds, paths)
    ensures o.worlds.Keys == worlds.Keys
    decreases |paths|
  {
    if paths == [] then Outcome(0, worlds, false)
    else if paths[0].None? then Visit(f, worlds, paths[1..])
    else
      var called := f(worlds[paths[0].value]);
      var after := worlds[paths[0].value := called.world];
      if called.Succeeded() then Visit(f, after, paths[1..]) else Outcome(called.result, after, called.hung)
  }

  lemma {:induction false} VisitFrame(f: Effect, worlds: Worlds, paths: seq<Option<Path>>, q: Path)
    requires Covers(worlds, paths) && Some(q) !in paths && q in worlds
    ensures Visit(f, worlds, paths).worlds[q] == worlds[q]
    decreases |paths|
  {
    if paths != [] {
      assert paths[0] in paths;
      if paths[0].None? {
        VisitFrame(f, worlds, paths[1..], q);
      } else {
        var called := f(worlds[paths[0].value]);
        if called.Succeeded() {
          VisitFrame(f, worlds[paths[0].value := called.world], paths[1..], q);
        }
      }
    }
  }

  // ---------------------------------------------------------------------------------------------
  // Where a walk stops
  // ---------------------------------------------------------------------------------------------

  /** The call on the k-th entry is made, on the dongle as the entries before left it, and does not succeed. */
  ghost predicate StopsAt(k: nat, f: Effect, worlds: Worlds, paths: seq<Option<Path>>) {
    && Covers(worlds, paths) && k < |paths| && paths[k].Some? && Covers(worlds, paths[..k])
    && var before := Visit(f, worlds, paths[..k]);
       before.Completed() && !f(before.worlds[paths[k].value]).Succeeded()
  }

  /** What a walk that stops at the k-th entry ends with: the result of that call, its dongle as the call left
      it, and all others as the entries before left them. */
  function OutcomeAt(k: nat, f: Effect, worlds: Worlds, paths: seq<Option<Path>>): Outcome
    requires StopsAt(k, f, worlds, paths)
  {
    var before, q := Visit(f, worlds, paths[..k]), paths[k].value;
    var called := f(before.worlds[q]);
    Outcome(called.result, before.worlds[q := called.world], called.hung)
  }

  lemma {:induction false} StopDecides(k: nat, f: Effect, worlds: Worlds, paths: seq<Option<Path>>)
    requires StopsAt(k, f, worlds, paths)
    ensures Visit(f, worlds, paths) == OutcomeAt(k, f, worlds, paths)
    decreases k
  {
    if k > 0 {
      var rest := paths[1..];
      assert paths[..k][0] == paths[0] && paths[..k][1..] == rest[..k - 1];
      if paths[0].None? {
        StopDecides(k - 1, f, worlds, rest);
      } else {
        StopDecides(k - 1, f, worlds[paths[0].value := f(worlds[paths[0].value]).world], rest);
      }
    }
  }

  /** A walk that does not complete stops at some entry. */
  lemma {:induction false} SomeStop(f: Effect, worlds: Worlds, paths: seq<Option<Path>>) returns (k: nat)
    requires Covers(worlds, paths) && !Visit(f, worlds, paths).Completed()
    ensures StopsAt(k, f, worlds, paths)
    decreases |paths|
  {
    if paths[0].Some? && !f(worlds[paths[0].value]).Succeeded() {
      k := 0;
    } else {
      var rest := paths[1..];
      var next := if paths[0].None? then worlds else worlds[paths[0].value := f(worlds[paths[0].value]).world];
      var j := SomeStop(f, next, rest);
      k := j + 1;
      assert paths[..k][0] == paths[0] && paths[..k][1..] == rest[..j];
      assert forall p <- paths[..k] :: p in paths;
    }
  }

  /** Exactly when a walk completes, and exactly when it never returns: some call is made and does not succeed,
      or does not return. */
  lemma VisitStops(f: Effect, worlds: Worlds, paths: seq<Option<Path>>)
    requires Covers(worlds, paths)
    ensures var o := Visit(f, worlds, paths);
            && (o.Completed() <==> forall k: nat :: !StopsAt(k, f, worlds, paths))
            && (o.hung <==> exists k: nat :: StopsAt(k, f, worlds, paths) && OutcomeAt(k, f, worlds, paths).hung)
            && (forall k: nat | StopsAt(k, f, worlds, paths) :: o == OutcomeAt(k, f, worlds, paths))
  {
    forall k: nat | StopsAt(k, f, worlds, paths)
      ensures Visit(f, worlds, paths) == OutcomeAt(k, f, worlds, paths)
    {
      StopDecides(k, f, worlds, paths);
    }
    if !Visit(f, worlds, paths).Completed() {
      var k := SomeStop(f, worlds, paths);
    }
  }

  /** A callback's success leaves a dongle in a state with this property. */
  ghost predicate Establishes(f: Effect, good: World -> bool) {
    forall w :: f(w).Succeeded() ==> good(f(w).world)
  }

  lemma {:induction false} CompletedMeaning(f: Effect, worlds: Worlds, paths: seq<Option<Path>>, good: World -> bool)
    requires Covers(worlds, paths) && Establishes(f, good) && Visit(f, worlds, paths).Completed()
    ensures var o := Visit(f, worlds, paths);
            && (forall p <- paths :: p.Some? ==> good(o.worlds[p.value]))
            && (forall q <- worlds :: Some(q) !in paths ==> o.worlds[q] == worlds[q])
    decreases |paths|
  {
    if paths != [] {
      if paths[0].None? {
        CompletedMeaning(f, worlds, paths[1..], good);
      } else {
        var q := paths[0].value;
        var next := worlds[q := f(worlds[q]).world];
        CompletedMeaning(f, next, paths[1..], good);
        if Some(q) !in paths[1..] {
          VisitFrame(f, next, paths[1..], q);
        }
      }
    }
  }

  /** The walk stopped at entry k, whose call decides the outcome: the dongles before it are good, those listed
      only later or not at all are untouched. */
  ghost predicate StoppedAt(k: nat, f: Effect, worlds: Worlds, o: Outcome, paths: seq<Option<Path>>,
                            good: World -> bool)
  {
    && StopsAt(k, f, worlds, paths) && o == OutcomeAt(k, f, worlds, paths)
    && (forall p <- paths[..k] :: p.Some? && p != paths[k] ==> good(o.worlds[p.value]))
    && (forall q <- worlds :: Some(q) !in paths[..k] && Some(q) != paths[k] ==> o.worlds[q] == worlds[q])
  }

  ghost predicate Stopped(f: Effect, worlds: Worlds, o: Outcome, paths: seq<Option<Path>>, good: World -> bool) {
    exists k: nat :: StoppedAt(k, f, worlds, o, paths, good)
  }

  /** fcd_for_each, for any callback. A walk that completes leaves every dongle with a path good and no other
      touched. One that does not, because of an error or of a call that never returns, stopped at some entry. */
  lemma VisitMeaning(f: Effect, worlds: Worlds, paths: seq<Option<Path>>, good: World -> bool)
    requires Covers(worlds, paths) && Establishes(f, good)
    ensures var o := Visit(f, worlds, paths);
            if o.Completed()
            then (forall p <- paths :: p.Some? ==> good(o.worlds[p.value]))
                 && (forall q <- worlds :: Some(q) !in paths ==> o.worlds[q] == worlds[q])
            else Stopped(f, worlds, o, paths, good)
  {
    var o := Visit(f, worlds, paths);
    if o.Completed() {
      CompletedMeaning(f, worlds, paths, good);
    } else {
      var k := SomeStop(f, worlds, paths);
      StopDecides(k, f, worlds, paths);
      CompletedMeaning(f, worlds, paths[..k], good);
      assert StoppedAt(k, f, worlds, o, paths, good);
    }
  }

  /** When a callback succeeds from every state of a kind and leads to a state of another, smaller kind, the
      whole walk completes. */
  lemma {:induction false} VisitAll(f: Effect, worlds: Worlds, paths: seq<Option<Path>>,
                                    pre: World -> bool, post: World -> bool)
    requires Covers(worlds, paths)
    requires forall w :: pre(w) ==> f(w).Succeeded() && post(f(w).world)
    requires forall w :: post(w) ==> pre(w)
    requires forall p <- paths :: p.Some? ==> pre(worlds[p.value])
    ensures var o := Visit(f, worlds, paths);
            o.Completed() && forall p <- paths :: p.Some? ==> post(o.worlds[p.value])
    decreases |paths|
  {
    if paths != [] {
      if paths[0].None? {
        VisitAll(f, worlds, paths[1..], pre, post);
      } else {
        var q := paths[0].value;
        var next := worlds[q := f(worlds[q]).world];
        assert paths[0] in paths;
        assert forall p <- paths[1..] :: p in paths;
        VisitAll(f, next, paths[1..], pre, post);
        if Some(q) !in paths[1..] {
          VisitFrame(f, next, paths[1..], q);
        }
      }
    }
  }

  /** A walk that completes has succeeded on each dongle as it was found. */
  lemma {:induction false} VisitCallsAll(f: Effect, worlds: Worlds, paths: seq<Option<Path>>, q: Path)
    requires Covers(worlds, paths) && Some(q) in paths && Visit(f, worlds, paths).Completed()
    ensures f(worlds[q]).Succeeded()
    decreases |paths|
  {
    if paths[0].None? {
      VisitCallsAll(f, worlds, paths[1..], q);
    } else if paths[0].value != q {
      var p := paths[0].value;
      VisitCallsAll(f, worlds[p := f(worlds[p]).world], paths[1..], q);
    }
  }

  // ---------------------------------------------------------------------------------------------
  // Walks that return
  // ---------------------------------------------------------------------------------------------

  /** A callback returns from every dongle without a session on which an exchange can hang. */
  ghost predicate ReturnsIfSteady(f: Effect) {
    forall w :: Steady(w) ==> !f(w).hung && Steady(f(w).world)
  }

  lemma {:induction false} SteadyWalk(f: Effect, worlds: Worlds, paths: seq<Option<Path>>)
    requires Covers(worlds, paths) && ReturnsIfSteady(f)
    requires forall p <- paths :: p.Some? ==> Steady(worlds[p.value])
    ensures var o := Visit(f, worlds, paths);
            && !o.hung
            && forall q <- worlds :: Steady(worlds[q]) ==> Steady(o.worlds[q])
    decreases |paths|
  {
    if paths != [] {
      assert paths[0] in paths;
      assert forall p <- paths[1..] :: p in paths;
      if paths[0].None? {
        SteadyWalk(f, worlds, paths[1..]);
      } else {
        var q := paths[0].value;
        if f(worlds[q]).Succeeded() {
          SteadyWalk(f, worlds[q := f(worlds[q]).world], paths[1..]);
        }
      }
    }
  }

  lemma OpenedSteady(w: World)
    requires Steady(w)
    ensures Steady(Opened(w))
  {
  }

  lemma CallbacksReturn(cb: Callback)
    ensures ReturnsIfSteady(EffectOf(cb))
  {
    forall w | Steady(w) ensures !EffectOf(cb)(w).hung && Steady(EffectOf(cb)(w).world) {
      OpenedSteady(w);
      match cb
      case FcdReset(command) => IoSteady(Opened(w), command, 0, [], 0);
      case FuncubeFlash(ctx) =>
        IoSteady(Opened(w), CMD_ERASE_APPLICATION, 0, [], 0);
        var erased := EraseIf(ctx.erase, Opened(w));
        FlashSteady(Write, erased.world, ctx.image);
        FlashSteady(Verify, FlashIf(ctx.write, erased, Write, ctx.image).world, ctx.image);
    }
  }

  // ---------------------------------------------------------------------------------------------
  // The flash callback on the fleet
  // ---------------------------------------------------------------------------------------------

  /** The dongle's flash agrees with the image on the range it reports. */
  predicate Holds(w: World, image: Image) {
    GoodRange(w.dev.first, w.dev.last) && Agrees(w.dev.mem, image, w.dev.first, w.dev.last)
  }

  /** What an erase leaves, whatever the faults. */
  lemma EraseMeaning(w: World)
    ensures var io := Io(w, CMD_ERASE_APPLICATION, 0, [], 0);
            && SameDongle(w.dev, io.world.dev)
            && (io.world.dev.mem == w.dev.mem || (io.world.dev.mem == w.dev.blank && w.dev.mode == Bootloader))
            && (io.result == 0 ==> w.dev.mode == Bootloader && io.world.dev.mem == w.dev.blank)
            && (io.result == 0 <==> io.result != -1) && (io.hung ==> io.result == -1)
  {
    IoSound(w, CMD_ERASE_APPLICATION, 0, [], 0);
    IoFailure(w, CMD_ERASE_APPLICATION, 0, [], 0);
    assert Packet(CMD_ERASE_APPLICATION, 0, []) == [CMD_ERASE_APPLICATION];
  }

  /** The flash after the erase, if it was asked for. */
  function Base(ctx: Context, d: Device): seq<Byte> {
    if ctx.erase then d.blank else d.mem
  }

  /** Written as asked: the image on the range, if a write was asked for, and the base everywhere else. */
  predicate WrittenAsAsked(ctx: Context, d: Device, mem: seq<Byte>) {
    && |d.mem| == |Base(ctx, d)|
    && if ctx.write then Programmed(Base(ctx, d), mem, ctx.image, d.first, d.last) else mem == Base(ctx, d)
  }

  /** Flash contents for which the code of a callback stands. Steps run in the order erase, write, verify, each
      only if the ones before succeeded, so that the code tells how far it got. */
  ghost predicate FlashedMeaning(ctx: Context, d: Device, code: int, mem: seq<Byte>) {
    match code
    case 0 => WrittenAsAsked(ctx, d, mem)
              && (ctx.write || ctx.verify ==> Agrees(mem, ctx.image, d.first, d.last))
    case 1 => ctx.verify && WrittenAsAsked(ctx, d, mem) && !Agrees(mem, ctx.image, d.first, d.last)
    case -6 => ctx.verify && WrittenAsAsked(ctx, d, mem)
    case -5 => ctx.write && |d.mem| == |Base(ctx, d)|
               && exists known: nat :: d.first <= known < d.last
                                       && WrittenUpTo(Base(ctx, d), mem, ctx.image, d.first, known)
    case -4 => (ctx.write || ctx.verify) && (mem == Base(ctx, d) || WrittenAsAsked(ctx, d, mem))
    case -3 => (ctx.write || ctx.verify) && mem == Base(ctx, d)
    case -2 => (ctx.write || ctx.verify) && mem == Base(ctx, d) && !GoodRange(d.first, d.last)
    case -1 => mem == d.mem || mem == Base(ctx, d) || WrittenAsAsked(ctx, d, mem)
    case _ => false
  }

  lemma WritePart(ctx: Context, w: World)
    requires ctx.write
    ensures var loop := Flash(Write, w, ctx.image);
            && SameDongle(w.dev, loop.world.dev)
            && (loop.hung ==> loop.code != 0)
            && match loop.code
               case 0 => Programmed(w.dev.mem, loop.world.dev.mem, ctx.image, w.dev.first, w.dev.last)
                         && GoodRange(w.dev.first, w.dev.last) && w.dev.last <= SizeOf(ctx.image)
               case -5 => exists known: nat :: w.dev.first <= known < w.dev.last
                            && WrittenUpTo(w.dev.mem, loop.world.dev.mem, ctx.image, w.dev.first, known)
               case -2 => loop.world.dev.mem == w.dev.mem && !GoodRange(w.dev.first, w.dev.last)
               case c => -4 <= c <= -1 && loop.world.dev.mem == w.dev.mem
  {
    FlashWriteMeaning(w, ctx.image);
    var loop := Flash(Write, w, ctx.image);
    if loop.code == -5 {
      var known := w.dev.first + BLOCK * loop.done;
      assert WrittenUpTo(w.dev.mem, loop.world.dev.mem, ctx.image, w.dev.first, known);
    }
  }

  /** The write of an already erased dongle. */
  lemma WriteStep(ctx: Context, d: Device, erased: Called)
    requires erased.Succeeded() && SameDongle(d, erased.world.dev) && erased.world.dev.mem == Base(ctx, d)
    ensures var called := FlashIf(ctx.write, erased, Write, ctx.image);
            && SameDongle(d, called.world.dev)
            && FlashedMeaning(ctx.(verify := false), d, called.result, called.world.dev.mem)
            && (called.hung ==> called.result != 0)
            && (called.result == 0 && ctx.write ==> GoodRange(d.first, d.last) && d.last <= SizeOf(ctx.image))
  {
    if ctx.write {
      WritePart(ctx, erased.world);
    }
  }

  /** The verification of what is written as asked. */
  lemma VerifyStep(ctx: Context, d: Device, written: Called)
    requires written.Succeeded() && SameDongle(d, written.world.dev) && ctx.verify
    requires WrittenAsAsked(ctx, d, written.world.dev.mem)
    requires ctx.write ==> GoodRange(d.first, d.last) && d.last <= SizeOf(ctx.image)
    ensures var called := FlashIf(ctx.verify, written, Verify, ctx.image);
            && SameDongle(d, called.world.dev)
            && FlashedMeaning(ctx, d, called.result, called.world.dev.mem)
            && (called.hung ==> called.result != 0)
  {
    FlashVerifyMeaning(written.world, ctx.image);
  }

  /** The flash task of an already erased dongle. */
  lemma TasksMeaning(ctx: Context, d: Device, erased: Called)
    requires erased.Succeeded() && SameDongle(d, erased.world.dev) && erased.world.dev.mem == Base(ctx, d)
    ensures var called := FlashIf(ctx.verify, FlashIf(ctx.write, erased, Write, ctx.image), Verify, ctx.image);
            && SameDongle(d, called.world.dev)
            && FlashedMeaning(ctx, d, called.result, called.world.dev.mem)
            && (called.hung ==> called.result != 0)
  {
    WriteStep(ctx, d, erased);
    var written := FlashIf(ctx.write, erased, Write, ctx.image);
    if written.result == 0 && ctx.verify {
      VerifyStep(ctx, d, written);
    }
  }

  /** funcube_flash, whatever the faults. A dongle that does not open is untouched. A failed erase is the result
      and nothing is written after it. Otherwise the code says what the flash holds: with 0 the erased or old
      contents outside the range, and the image on it if write or verify was asked for. */
  lemma FlashOneMeaning(ctx: Context, w: World)
    ensures var called, d := FlashOne(ctx, w), w.dev;
            && SameDongle(d, called.world.dev)
            && (called.hung ==> called.result != 0)
            && FlashedMeaning(ctx, d, called.result, called.world.dev.mem)
            && (!Next(w).opens ==> called.result == -1 && !called.hung && called.world.dev == d)
            && (Next(w).opens && ctx.erase ==>
                  var io := Io(World(d, Rest(w)), CMD_ERASE_APPLICATION, 0, [], 0);
                  io.result != 0 ==> called == Called(io.result, io.world, io.hung))
            && (called.result != -1 && ctx.erase ==> d.mode == Bootloader)
  {
    if Next(w).opens {
      EraseMeaning(Opened(w));
      var erased := EraseIf(ctx.erase, Opened(w));
      if erased.result == 0 {
        TasksMeaning(ctx, w.dev, erased);
      }
    }
  }

  /** The callback does what it would do without the last action asked for, and if that succeeds this action. */
  lemma FlashOneSteps(ctx: Context, w: World)
    requires Next(w).opens
    ensures ctx.verify ==>
              var before := FlashOne(ctx.(verify := false), w);
              if before.result != 0 then FlashOne(ctx, w) == before
              else var loop := Flash(Verify, before.world, ctx.image);
                   FlashOne(ctx, w) == Called(loop.code, loop.world, loop.hung)
    ensures !ctx.verify && ctx.write ==>
              var before := FlashOne(ctx.(write := false), w);
              if before.result != 0 then FlashOne(ctx, w) == before
              else var loop := Flash(Write, before.world, ctx.image);
                   FlashOne(ctx, w) == Called(loop.code, loop.world, loop.hung)
    ensures !ctx.verify && !ctx.write && ctx.erase ==>
              var io := Io(World(w.dev, Rest(w)), CMD_ERASE_APPLICATION, 0, [], 0);
              FlashOne(ctx, w) == Called(io.result, io.world, io.hung)
    ensures !ctx.verify && !ctx.write && !ctx.erase ==>
              FlashOne(ctx, w) == Called(0, World(w.dev, Rest(w)), false)
  {
  }

  /** Success with any action asked for needs a dongle in the bootloader. */
  lemma FlashOneMode(ctx: Context, w: World)
    requires ctx.erase || ctx.write || ctx.verify
    ensures FlashOne(ctx, w).result == 0 ==> w.dev.mode == Bootloader
  {
    if Next(w).opens {
      var erased := EraseIf(ctx.erase, Opened(w));
      EraseMeaning(Opened(w));
      if erased.result == 0 {
        RangeMeaning(erased.world);
      }
    }
  }

  /** With write or verify selected, success means the dongle holds the image. */
  lemma FlashOneHolds(ctx: Context, w: World)
    requires ctx.write || ctx.verify
    ensures FlashOne(ctx, w).result == 0 ==> !FlashOne(ctx, w).hung && Holds(FlashOne(ctx, w).world, ctx.image)
  {
    if FlashOne(ctx, w).result == 0 {
      var erased := EraseIf(ctx.erase, Opened(w));
      FlashWriteMeaning(erased.world, ctx.image);
      var written := FlashIf(ctx.write, erased, Write, ctx.image);
      FlashVerifyMeaning(written.world, ctx.image);
    }
  }

  /** The fleet result, whatever the faults: a walk that completes leaves the image on every enumerated dongle
      with a path and touches no other; one that fails or never returns did all dongles up to some entry, and
      none after it. */
  lemma FleetFlashed(ctx: Context, worlds: Worlds, paths: seq<Option<Path>>)
    requires (ctx.write || ctx.verify) && Covers(worlds, paths)
    ensures var o := Visit(Flashing(ctx), worlds, paths);
            if o.Completed()
            then (forall p <- paths :: p.Some? ==> Holds(o.worlds[p.value], ctx.image))
                 && (forall q <- worlds :: Some(q) !in paths ==> o.worlds[q] == worlds[q])
            else Stopped(Flashing(ctx), worlds, o, paths, w => Holds(w, ctx.image))
  {
    var good := (w: World) => Holds(w, ctx.image);
    forall w ensures FlashOne(ctx, w).result == 0 ==> good(FlashOne(ctx, w).world) {
      FlashOneHolds(ctx, w);
    }
    VisitMeaning(Flashing(ctx), worlds, paths, good);
  }

  // ---------------------------------------------------------------------------------------------
  // The reset callback on the fleet
  // ---------------------------------------------------------------------------------------------

  function Times(paths: seq<Option<Path>>, q: Path): nat {
    if paths == [] then 0 else Times(paths[1..], q) + if paths[0] == Some(q) then 1 else 0
  }

  function Repeat(f: Effect, w: World, n: nat): World
    decreases n
  {
    if n == 0 then w else Repeat(f, f(w).world, n - 1)
  }

  /** The call for the k-th entry, after those for the earlier entries of the same dongle, never returns. */
  ghost predicate HangsAt(k: nat, f: Effect, worlds: Worlds, paths: seq<Option<Path>>) {
    && k < |paths| && paths[k].Some? && paths[k].value in worlds
    && f(Repeat(f, worlds[paths[k].value], Times(paths[..k], paths[k].value))).hung
  }

  /** The dongles have had the calls of the first n entries. */
  ghost predicate CalledUpTo(n: nat, f: Effect, worlds: Worlds, after: Worlds, paths: seq<Option<Path>>) {
    && n <= |paths| && after.Keys == worlds.Keys
    && forall q <- worlds :: after[q] == Repeat(f, worlds[q], Times(paths[..n], q))
  }

  function AfterFirst(f: Effect, worlds: Worlds, paths: seq<Option<Path>>): Worlds
    requires paths != [] && Covers(worlds, paths)
  {
    if paths[0].None? then worlds else worlds[paths[0].value := f(worlds[paths[0].value]).world]
  }

  /** One entry more at the front. */
  lemma OneEntryMore(f: Effect, worlds: Worlds, paths: seq<Option<Path>>, n: nat, q: Path)
    requires paths != [] && Covers(worlds, paths) && q in worlds && n < |paths|
    ensures Repeat(f, worlds[q], Times(paths[..n + 1], q))
            == Repeat(f, AfterFirst(f, worlds, paths)[q], Times(paths[1..][..n], q))
  {
    assert paths[..n + 1][0] == paths[0] && paths[..n + 1][1..] == paths[1..][..n];
  }

  lemma HangsOneLater(f: Effect, worlds: Worlds, paths: seq<Option<Path>>, k: nat)
    requires paths != [] && Covers(worlds, paths)
    ensures HangsAt(k + 1, f, worlds, paths) <==> HangsAt(k, f, AfterFirst(f, worlds, paths), paths[1..])
  {
    if k + 1 < |paths| && paths[k + 1].Some? {
      assert paths[k + 1] in paths;
      OneEntryMore(f, worlds, paths, k, paths[k + 1].value);
    }
  }

  lemma CalledOneMore(f: Effect, worlds: Worlds, after: Worlds, paths: seq<Option<Path>>, n: nat)
    requires paths != [] && Covers(worlds, paths)
    requires CalledUpTo(n, f, AfterFirst(f, worlds, paths), after, paths[1..])
    ensures CalledUpTo(n + 1, f, worlds, after, paths)
  {
    forall q <- worlds ensures after[q] == Repeat(f, worlds[q], Times(paths[..n + 1], q)) {
      OneEntryMore(f, worlds, paths, n, q);
    }
  }

  /** A walk with a callback that never fails either reaches the end or the first call that hangs. */
  lemma {:induction false} TirelessWalk(f: Effect, worlds: Worlds, paths: seq<Option<Path>>) returns (n: nat)
    requires Covers(worlds, paths) && forall w :: f(w).result == 0
    ensures var o := Visit(f, worlds, paths);
            && o.result == 0 && CalledUpTo(n, f, worlds, o.worlds, paths)
            && (forall k: nat | k + 1 < n :: !HangsAt(k, f, worlds, paths))
            && (if o.hung then n > 0 && HangsAt(n - 1, f, worlds, paths)
                else n == |paths| && forall k: nat :: !HangsAt(k, f, worlds, paths))
    decreases |paths|
  {
    n := 0;
    if paths != [] {
      var next := AfterFirst(f, worlds, paths);
      if paths[0].Some? && f(worlds[paths[0].value]).hung {
        assert CalledUpTo(0, f, next, next, paths[1..]);
        CalledOneMore(f, worlds, next, paths, 0);
        n := 1;
      } else {
        var m := TirelessWalk(f, next, paths[1..]);
        CalledOneMore(f, worlds, Visit(f, worlds, paths).worlds, paths, m);
        forall k: nat ensures HangsAt(k + 1, f, worlds, paths) <==> HangsAt(k, f, next, paths[1..]) {
          HangsOneLater(f, worlds, paths, k);
        }
        forall k: nat ensures HangsAt(k, f, worlds, paths) ==> k > 0 && HangsAt(k - 1, f, next, paths[1..]) {
        }
        n := m + 1;
      }
    }
  }

  /** One reset attempt, whatever the faults: a dongle that does not open is left alone; otherwise one exchange
      follows, and at most the mode of the dongle changes. */
  lemma ResetMeaning(command: Byte, w: World)
    requires command in {CMD_RESET_BOOTLOADER, CMD_RESET_APPLICATION}
    ensures var called := ResetOne(command, w);
            && called.result == 0
            && called.world.faults == (if Next(w).opens then Rest(World(w.dev, Rest(w))) else Rest(w))
            && called.world.dev ==
               if Next(w).opens && Next(Opened(w)).opens && Next(Opened(w)).acts
               then w.dev.(mode := if command == CMD_RESET_BOOTLOADER then Bootloader else Application)
               else w.dev
  {
    assert Packet(command, 0, []) == [command];
    IoMeaning(Opened(w), command, 0, [], 0);
  }

  /** Resets leave the flash and the range alone. */
  lemma {:induction false} ResetsKeepFlash(command: Byte, w: World, n: nat)
    requires command in {CMD_RESET_BOOTLOADER, CMD_RESET_APPLICATION}
    ensures var e := Repeat(Resetting(command), w, n).dev; e == w.dev.(mode := e.mode)
    decreases n
  {
    if n > 0 {
      ResetMeaning(command, w);
      ResetsKeepFlash(command, ResetOne(command, w).world, n - 1);
    }
  }

  /** A walk that completes, with any callback, has called it once for each entry of each dongle. */
  lemma {:induction false} CompletedCalls(f: Effect, worlds: Worlds, paths: seq<Option<Path>>)
    requires Covers(worlds, paths) && Visit(f, worlds, paths).Completed()
    ensures CalledUpTo(|paths|, f, worlds, Visit(f, worlds, paths).worlds, paths)
    decreases |paths|
  {
    if paths != [] {
      CompletedCalls(f, AfterFirst(f, worlds, paths), paths[1..]);
      CalledOneMore(f, worlds, Visit(f, worlds, paths).worlds, paths, |paths| - 1);
    }
  }

  /** A reset attempt on this dongle never returns: it opens, and the exchange hangs. */
  predicate ResetHangs(command: Byte, w: World) {
    Next(w).opens && Hangs(Next(Opened(w)), [command])
  }

  lemma ResetHangMeaning(command: Byte, w: World)
    ensures Resetting(command)(w).hung <==> ResetHangs(command, w)
  {
    assert Packet(command, 0, []) == [command];
  }

  /** The dongle as the reset attempts of the first n entries leave it. */
  function ResetBy(n: nat, command: Byte, w: World, paths: seq<Option<Path>>, q: Path): World
    requires n <= |paths|
  {
    Repeat(Resetting(command), w, Times(paths[..n], q))
  }

  /** The attempt for the k-th entry hangs. */
  predicate ResetHangsAt(k: nat, command: Byte, worlds: Worlds, paths: seq<Option<Path>>) {
    && k < |paths| && paths[k].Some? && paths[k].value in worlds
    && ResetHangs(command, ResetBy(k, command, worlds[paths[k].value], paths, paths[k].value))
  }

  /** The reset walk does not stop at a failure. It returns exactly if no attempt hangs; then it returns 0 and
      every dongle has had an attempt for each of its entries. Otherwise the entries up to the one it hangs at
      have had theirs, and no entry after it. */
  lemma ResetReachesAll(command: Byte, worlds: Worlds, paths: seq<Option<Path>>)
    requires Covers(worlds, paths)
    ensures var o := Visit(Resetting(command), worlds, paths);
            && o.result == 0
            && (o.hung <==> exists k: nat :: ResetHangsAt(k, command, worlds, paths))
            && (!o.hung ==> forall q <- worlds :: o.worlds[q] == ResetBy(|paths|, command, worlds[q], paths, q))
            && (o.hung ==>
                  exists k: nat ::
                    && ResetHangsAt(k, command, worlds, paths)
                    && forall q <- worlds :: o.worlds[q] == ResetBy(k + 1, command, worlds[q], paths, q))
  {
    var f := Resetting(command);
    var n := TirelessWalk(f, worlds, paths);
    forall k: nat ensures ResetHangsAt(k, command, worlds, paths) <==> HangsAt(k, f, worlds, paths) {
      if k < |paths| && paths[k].Some? && paths[k].value in worlds {
        ResetHangMeaning(command, ResetBy(k, command, worlds[paths[k].value], paths, paths[k].value));
      }
    }
    if Visit(f, worlds, paths).hung {
      assert ResetHangsAt(n - 1, command, worlds, paths);
    }
  }

  /** One dongle that opens and then stays silent, listed first, and no other is reset. */
  lemma SilentDongleBlocksReset(command: Byte, worlds: Worlds, p: Path, rest: seq<Option<Path>>)
    requires Covers(worlds, [Some(p)] + rest) && worlds[p].faults == [PERFECT, SILENT]
    ensures var o := Visit(Resetting(command), worlds, [Some(p)] + rest);
            o.hung && forall q <- worlds :: q != p ==> o.worlds[q] == worlds[q]
  {
    assert [PERFECT, SILENT][1..] == [SILENT];
    ResetHangMeaning(command, worlds[p]);
  }

  // ---------------------------------------------------------------------------------------------
  // The action sequence of main
  // ---------------------------------------------------------------------------------------------

  /** The reset walks of main, which look at no result. */
  function ResetIf(reset: bool, command: Byte, worlds: Worlds, paths: seq<Option<Path>>): (o: Outcome)
    requires Covers(worlds, paths)
    ensures o.worlds.Keys == worlds.Keys
  {
    if reset then Visit(Resetting(command), worlds, paths) else Outcome(0, worlds, false)
  }

  /** The walks of main: each enumerates anew, and none starts before the one before it has returned. */
  function Main(reset: bool, ctx: Context, worlds: Worlds,
                boot: seq<Option<Path>>, flash: seq<Option<Path>>, app: seq<Option<Path>>): (o: Outcome)
    requires Covers(worlds, boot) && Covers(worlds, flash) && Covers(worlds, app)
    ensures o.worlds.Keys == worlds.Keys
  {
    var booted := ResetIf(reset, CMD_RESET_BOOTLOADER, worlds, boot);
    if booted.hung then Outcome(0, booted.worlds, true)
    else
      var flashed := Visit(Flashing(ctx), booted.worlds, flash);
      var exit := if flashed.result != 0 then 1 else 0;
      if flashed.hung then Outcome(exit, flashed.worlds, true)
      else
        var done := ResetIf(reset, CMD_RESET_APPLICATION, flashed.worlds, app);
        Outcome(exit, done.worlds, done.hung)
  }

  /** A fault-free dongle whose flash range suits the image. */
  predicate Suitable(w: World, image: Image) {
    && w.faults == [] && |w.dev.blank| == |w.dev.mem|
    && GoodRange(w.dev.first, w.dev.last) && w.dev.last <= SizeOf(image) && w.dev.last <= |w.dev.mem|
  }

  function ModeAfter(command: Byte): Mode {
    if command == CMD_RESET_BOOTLOADER then Bootloader else Application
  }

  lemma ResetCompletes(command: Byte, w: World)
    requires w.faults == [] && command in {CMD_RESET_BOOTLOADER, CMD_RESET_APPLICATION}
    ensures ResetOne(command, w).world == World(w.dev.(mode := ModeAfter(command)), [])
    ensures !ResetOne(command, w).hung
  {
    IoComplete(Opened(w), command, 0, [], 0);
    assert Packet(command, 0, []) == [command];
  }

  lemma {:induction false} ResetTimesComplete(command: Byte, w: World, n: nat)
    requires w.faults == [] && command in {CMD_RESET_BOOTLOADER, CMD_RESET_APPLICATION}
    ensures Repeat(Resetting(command), w, n) == if n == 0 then w else World(w.dev.(mode := ModeAfter(command)), [])
    decreases n
  {
    if n > 0 {
      ResetCompletes(command, w);
      ResetTimesComplete(command, Resetting(command)(w).world, n - 1);
    }
  }

  lemma {:induction false} TimesListed(paths: seq<Option<Path>>, q: Path)
    ensures Times(paths, q) > 0 <==> Some(q) in paths
  {
    if paths != [] {
      TimesListed(paths[1..], q);
    }
  }

  /** A reset walk that returns switches the mode of exactly the fault-free dongles listed. */
  lemma ResetSwitches(reset: bool, command: Byte, worlds: Worlds, paths: seq<Option<Path>>, q: Path)
    requires command in {CMD_RESET_BOOTLOADER, CMD_RESET_APPLICATION}
    requires Covers(worlds, paths) && q in worlds && worlds[q].faults == []
    requires !ResetIf(reset, command, worlds, paths).hung
    ensures ResetIf(reset, command, worlds, paths).worlds[q]
            == if reset && Some(q) in paths then World(worlds[q].dev.(mode := ModeAfter(command)), []) else worlds[q]
  {
    ResetReachesAll(command, worlds, paths);
    assert paths[..|paths|] == paths;
    ResetTimesComplete(command, worlds[q], Times(paths, q));
    TimesListed(paths, q);
  }

  /** Suitable and in the bootloader. */
  predicate Flashable(w: World, image: Image) {
    Suitable(w, image) && w.dev.mode == Bootloader
  }

  lemma EraseCompletes(on: bool, w: World, image: Image)
    requires Flashable(w, image)
    ensures EraseIf(on, w).Succeeded() && Flashable(EraseIf(on, w).world, image)
  {
    IoComplete(w, CMD_ERASE_APPLICATION, 0, [], 0);
    assert Packet(CMD_ERASE_APPLICATION, 0, []) == [CMD_ERASE_APPLICATION];
  }

  lemma WriteCompletes(w: World, image: Image)
    requires Flashable(w, image)
    ensures var loop := Flash(Write, w, image);
            loop.code == 0 && !loop.hung && Flashable(loop.world, image) && Holds(loop.world, image)
  {
    FlashWriteComplete(w, image);
    FlashWriteMeaning(w, image);
  }

  lemma VerifyCompletes(w: World, image: Image)
    requires Flashable(w, image) && Holds(w, image)
    ensures var loop := Flash(Verify, w, image);
            loop.code == 0 && !loop.hung && Flashable(loop.world, image) && Holds(loop.world, image)
  {
    FlashVerifyComplete(w, image);
    FlashVerifyMeaning(w, image);
  }

  lemma FlashOneCompletes(ctx: Context, w: World)
    requires Flashable(w, ctx.image) && ctx.write
    ensures var called := FlashOne(ctx, w);
            called.Succeeded() && Flashable(called.world, ctx.image) && Holds(called.world, ctx.image)
  {
    EraseCompletes(ctx.erase, Opened(w), ctx.image);
    var erased := EraseIf(ctx.erase, Opened(w));
    WriteCompletes(erased.world, ctx.image);
    if ctx.verify {
      VerifyCompletes(Flash(Write, erased.world, ctx.image).world, ctx.image);
    }
  }

  /** The application does not execute bootloader commands. */
  lemma ApplicationRefuses(ctx: Context, w: World)
    requires w.faults == [] && w.dev.mode == Application && ctx.write
    ensures FlashOne(ctx, w).result != 0 && !FlashOne(ctx, w).hung
  {
    IoComplete(Opened(w), CMD_ERASE_APPLICATION, 0, [], 0);
    assert Packet(CMD_ERASE_APPLICATION, 0, []) == [CMD_ERASE_APPLICATION];
    RangeMeaning(Opened(w));
  }

  lemma SuitableWalkReturns(ctx: Context, worlds: Worlds, paths: seq<Option<Path>>)
    requires Covers(worlds, paths) && forall p <- paths :: p.Some? ==> Suitable(worlds[p.value], ctx.image)
    ensures !Visit(Flashing(ctx), worlds, paths).hung
  {
    CallbacksReturn(FuncubeFlash(ctx));
    SteadyWalk(Flashing(ctx), worlds, paths);
  }

  lemma BootloadersFlashed(ctx: Context, worlds: Worlds, paths: seq<Option<Path>>)
    requires Covers(worlds, paths) && ctx.write
    requires forall p <- paths :: p.Some? ==> Flashable(worlds[p.value], ctx.image)
    ensures var o := Visit(Flashing(ctx), worlds, paths);
            && o.result == 0
            && forall p <- paths :: p.Some? ==>
                 Flashable(o.worlds[p.value], ctx.image) && Holds(o.worlds[p.value], ctx.image)
  {
    var image := ctx.image;
    var boots := (w: World) => Flashable(w, image);
    var done := (w: World) => Flashable(w, image) && Holds(w, image);
    forall w | boots(w) ensures Flashing(ctx)(w).Succeeded() && done(Flashing(ctx)(w).world) {
      FlashOneCompletes(ctx, w);
    }
    VisitAll(Flashing(ctx), worlds, paths, boots, done);
  }

  lemma ApplicationStopsWalk(ctx: Context, worlds: Worlds, paths: seq<Option<Path>>, p: Path)
    requires Covers(worlds, paths) && ctx.write && Some(p) in paths
    requires worlds[p].faults == [] && worlds[p].dev.mode == Application
    ensures !Visit(Flashing(ctx), worlds, paths).Completed()
  {
    ApplicationRefuses(ctx, worlds[p]);
    if Visit(Flashing(ctx), worlds, paths).Completed() {
      VisitCallsAll(Flashing(ctx), worlds, paths, p);
    }
  }

  /** Flashing a fleet of suitable dongles without faults returns, and succeeds exactly if all are in the
      bootloader. */
  lemma FlashWalkComplete(ctx: Context, worlds: Worlds, paths: seq<Option<Path>>)
    requires Covers(worlds, paths) && ctx.write
    requires forall p <- paths :: p.Some? ==> Suitable(worlds[p.value], ctx.image)
    ensures var o := Visit(Flashing(ctx), worlds, paths);
            && !o.hung
            && (o.result == 0 <==> forall p <- paths :: p.Some? ==> worlds[p.value].dev.mode == Bootloader)
            && (o.result == 0 ==> forall p <- paths :: p.Some? ==>
                  Flashable(o.worlds[p.value], ctx.image) && Holds(o.worlds[p.value], ctx.image))
  {
    SuitableWalkReturns(ctx, worlds, paths);
    if p :| p in paths && p.Some? && worlds[p.value].dev.mode != Bootloader {
      ApplicationStopsWalk(ctx, worlds, paths, p.value);
    } else {
      BootloadersFlashed(ctx, worlds, paths);
    }
  }

  /** The action sequence of main, whatever the faults. It goes through the walks in order, each if the one before
      returned: with the reset action all dongles found are reset before and after the flash walk, the latter
      whatever the flash walk returned. The exit code is 0 or 1, and 0 means the flash walk succeeded. */
  lemma MainSequence(reset: bool, ctx: Context, worlds: Worlds, boot: seq<Option<Path>>,
                     flash: seq<Option<Path>>, app: seq<Option<Path>>)
    requires Covers(worlds, boot) && Covers(worlds, flash) && Covers(worlds, app)
    ensures var o, booted := Main(reset, ctx, worlds, boot, flash, app), BootedBy(reset, worlds, boot);
            && o.worlds.Keys == worlds.Keys
            && (!o.hung ==>
                  var flashed := Visit(Flashing(ctx), booted, flash);
                  && !flashed.hung
                  && o.result == (if flashed.result == 0 then 0 else 1)
                  && forall q <- worlds ::
                       o.worlds[q] == if reset then ResetBy(|app|, CMD_RESET_APPLICATION, flashed.worlds[q], app, q)
                                      else flashed.worlds[q])
  {
    ResetReachesAll(CMD_RESET_BOOTLOADER, worlds, boot);
    var booted := ResetIf(reset, CMD_RESET_BOOTLOADER, worlds, boot);
    if !booted.hung {
      assert booted.worlds == BootedBy(reset, worlds, boot);
      var flashed := Visit(Flashing(ctx), booted.worlds, flash);
      ResetReachesAll(CMD_RESET_APPLICATION, flashed.worlds, app);
    }
  }

  /** Every dongle after the reset attempts for its entries. */
  function BootedBy(reset: bool, worlds: Worlds, boot: seq<Option<Path>>): (after: Worlds)
    ensures after.Keys == worlds.Keys
  {
    map q | q in worlds ::
      if reset then ResetBy(|boot|, CMD_RESET_BOOTLOADER, worlds[q], boot, q) else worlds[q]
  }

  /** Exit code 0 with write or verify asked for, whatever the faults: every dongle found for flashing holds the
      image in the end. */
  lemma ExitMeansFlashed(reset: bool, ctx: Context, worlds: Worlds, boot: seq<Option<Path>>,
                         flash: seq<Option<Path>>, app: seq<Option<Path>>)
    requires Covers(worlds, boot) && Covers(worlds, flash) && Covers(worlds, app) && (ctx.write || ctx.verify)
    ensures var o := Main(reset, ctx, worlds, boot, flash, app);
            !o.hung && o.result == 0 ==> forall p <- flash :: p.Some? ==> Holds(o.worlds[p.value], ctx.image)
  {
    MainSequence(reset, ctx, worlds, boot, flash, app);
    var booted := BootedBy(reset, worlds, boot);
    FleetFlashed(ctx, booted, flash);
    var flashed := Visit(Flashing(ctx), booted, flash);
    forall p <- flash | p.Some? && flashed.Completed()
      ensures Holds(flashed.worlds[p.value], ctx.image)
      ensures Holds(ResetBy(|app|, CMD_RESET_APPLICATION, flashed.worlds[p.value], app, p.value), ctx.image)
    {
      ResetsKeepFlash(CMD_RESET_APPLICATION, flashed.worlds[p.value], Times(app[..|app|], p.value));
    }
  }

  /** main returns, whatever else goes wrong, on a fleet without a session on which an exchange can hang. */
  lemma MainReturns(reset: bool, ctx: Context, worlds: Worlds, boot: seq<Option<Path>>,
                    flash: seq<Option<Path>>, app: seq<Option<Path>>)
    requires Covers(worlds, boot) && Covers(worlds, flash) && Covers(worlds, app)
    requires forall p <- boot + flash + app :: p.Some? ==> Steady(worlds[p.value])
    ensures !Main(reset, ctx, worlds, boot, flash, app).hung
  {
    CallbacksReturn(FcdReset(CMD_RESET_BOOTLOADER));
    CallbacksReturn(FuncubeFlash(ctx));
    CallbacksReturn(FcdReset(CMD_RESET_APPLICATION));
    assert forall p :: p in boot || p in flash || p in app ==> p in boot + flash + app;
    SteadyWalk(Resetting(CMD_RESET_BOOTLOADER), worlds, boot);
    var booted := ResetIf(reset, CMD_RESET_BOOTLOADER, worlds, boot).worlds;
    SteadyWalk(Flashing(ctx), booted, flash);
    var flashed := Visit(Flashing(ctx), booted, flash).worlds;
    SteadyWalk(Resetting(CMD_RESET_APPLICATION), flashed, app);
  }

  /** The update of suitable dongles, without faults, with or without resets, erase and verify. If main returns,
      the exit code is 0 exactly if every dongle enumerated for flashing was in the bootloader or enumerated for
      the reset into it. Then each of them holds the image, and runs the application if the last reset found it.
      It does return unless a dongle that is only reset can hang. */
  lemma UpdateComplete(reset: bool, ctx: Context, worlds: Worlds, boot: seq<Option<Path>>,
                       flash: seq<Option<Path>>, app: seq<Option<Path>>)
    requires Covers(worlds, boot) && Covers(worlds, flash) && Covers(worlds, app) && ctx.write
    requires forall p <- flash :: p.Some? ==> Suitable(worlds[p.value], ctx.image)
    ensures var o := Main(reset, ctx, worlds, boot, flash, app);
            && (o.hung ==> exists p <- boot + app :: p.Some? && p !in flash && !Steady(worlds[p.value]))
            && (!o.hung ==>
                  (o.result == 0 <==> forall p <- flash :: p.Some? ==>
                     worlds[p.value].dev.mode == Bootloader || (reset && p in boot)))
            && (!o.hung && o.result == 0 ==> forall p <- flash :: p.Some? ==>
                  && Holds(o.worlds[p.value], ctx.image)
                  && o.worlds[p.value].dev.mode == if reset && p in app then Application else Bootloader)
  {
    var o := Main(reset, ctx, worlds, boot, flash, app);
    var booted := ResetIf(reset, CMD_RESET_BOOTLOADER, worlds, boot);
    if forall p <- boot + app :: p.Some? && p !in flash ==> Steady(worlds[p.value]) {
      MainReturns(reset, ctx, worlds, boot, flash, app);
    }
    if !booted.hung {
      forall p <- flash | p.Some?
        ensures Suitable(booted.worlds[p.value], ctx.image)
        ensures booted.worlds[p.value].dev.mode == Bootloader <==>
                worlds[p.value].dev.mode == Bootloader || (reset && p in boot)
      {
        ResetSwitches(reset, CMD_RESET_BOOTLOADER, worlds, boot, p.value);
      }
      FlashWalkComplete(ctx, booted.worlds, flash);
      var flashed := Visit(Flashing(ctx), booted.worlds, flash);
      if !o.hung && flashed.result == 0 {
        forall p <- flash | p.Some?
          ensures Holds(o.worlds[p.value], ctx.image)
          ensures o.worlds[p.value].dev.mode == if reset && p in app then Application else Bootloader
        {
          ResetSwitches(reset, CMD_RESET_APPLICATION, flashed.worlds, app, p.value);
        }
      }
    }
  }

  // ---------------------------------------------------------------------------------------------
  // The code. hung: the call has not returned.
  // ---------------------------------------------------------------------------------------------

  /** fcd_open with a path, as far as the device goes: the probe that validates the path. */
  method FcdOpen(d: Dongle) returns (ok: bool)
    modifies d
    ensures ok == Next(old(d.Now())).opens && d.Now() == Opened(old(d.Now())) && d.handles == old(d.handles)
  {
    var h := HidOpenPath(d);
    if h != null {
      HidClose(h);
    }
    ok := h != null;
  }

  /** funcube_flash. */
  method FlashCallback(d: Dongle, host: Host, ctx: Context) returns (result: int, hung: bool)
    modifies d
    ensures var called := FlashOne(ctx, old(d.Now()));
            result == called.result && hung == called.hung && d.Now() == called.world
    ensures d.handles == old(d.handles) + if hung then 1 else 0
  {
    result, hung := 0, false;
    var present := FcdOpen(d);
    if present {
      ghost var called := Called(0, d.Now(), false);
      if ctx.erase {
        result, hung := FcdBlEraseApplication(d);
      }
      called := EraseIf(ctx.erase, called.world);
      assert result == called.result && hung == called.hung && d.Now() == called.world;
      if result == 0 && ctx.write {
        result, hung := FcdBlFlashWrite(d, host, ctx.image, SizeOf(ctx.image));
      }
      called := FlashIf(ctx.write, called, Write, ctx.image);
      assert result == called.result && hung == called.hung && d.Now() == called.world;
      if result == 0 && ctx.verify {
        result, hung := FcdBlFlashVerify(d, host, ctx.image, SizeOf(ctx.image));
      }
    } else {
      result := -1;
    }
  }

  /** fcd_reset. */
  method ResetCallback(d: Dongle, command: Byte) returns (result: int, hung: bool)
    modifies d
    ensures var called := ResetOne(command, old(d.Now()));
            result == called.result && hung == called.hung && d.Now() == called.world
    ensures d.handles == old(d.handles) + if hung then 1 else 0
  {
    hung := false;
    var present := FcdOpen(d);
    if present {
      var rc, errno;
      rc, errno, hung := FcdSet(d, command, [], 0);
    }
    result := 0;
  }

  /** The dongles present, by path; different paths are different dongles. */
  type Fleet = map<Path, Dongle>

  ghost predicate Separate(fleet: Fleet) {
    forall p, q :: p in fleet && q in fleet && p != q ==> fleet[p] != fleet[q]
  }

  ghost function Present(fleet: Fleet): set<Dongle> {
    set p | p in fleet :: fleet[p]
  }

  ghost function WorldsOf(fleet: Fleet): Worlds
    reads Present(fleet)
  {
    map p | p in fleet :: fleet[p].Now()
  }

  function Paths(records: seq<Record>): (r: seq<Option<Path>>)
    ensures |r| == |records| && forall i :: 0 <= i < |r| ==> r[i] == records[i].path
  {
    seq(|records|, i requires 0 <= i < |records| => records[i].path)
  }

  /** The paths fcd_for_each walks for a tree of USB devices. */
  function DonglePaths(devs: seq<UsbDevice>): seq<Option<Path>> {
    Paths(Select(Flatten(devs), FCD_USB_VID, FCD_USB_PID))
  }

  /** They are those of the HID altsettings of FUNcube dongles, and of no other device, in the order of the tree. */
  lemma DonglePathsExactly(devs: seq<UsbDevice>) returns (at: seq<Position>)
    ensures |at| == |DonglePaths(devs)| && Ascending(at)
    ensures forall x :: 0 <= x < |at| ==>
              && InTree(devs, at[x]) && AltAt(devs, at[x]).hid
              && devs[at[x].device].vendorId == 0x04D8 && devs[at[x].device].productId == 0xFB56
              && DonglePaths(devs)[x] == Some(Path(devs[at[x].device].bus, devs[at[x].device].address,
                                                   AltAt(devs, at[x]).interfaceNumber))
    ensures forall a: Position | InTree(devs, a) && AltAt(devs, a).hid ::
              devs[a.device].vendorId == 0x04D8 && devs[a.device].productId == 0xFB56 ==> a in at
  {
    at := EnumeratedExactly(devs, FCD_USB_VID, FCD_USB_PID);
    var records := Select(Flatten(devs), FCD_USB_VID, FCD_USB_PID);
    forall x | 0 <= x < |at|
      ensures DonglePaths(devs)[x] == Some(Path(devs[at[x].device].bus, devs[at[x].device].address,
                                                AltAt(devs, at[x]).interfaceNumber))
    {
      assert Describes(records[x], devs[at[x].device], AltAt(devs, at[x]));
    }
    forall a: Position | InTree(devs, a) && AltAt(devs, a).hid
                         && devs[a.device].vendorId == 0x04D8 && devs[a.device].productId == 0xFB56
      ensures a in at
    {
      assert Matching(devs, a, FCD_USB_VID, FCD_USB_PID);
    }
  }

  method CallOn(fleet: Fleet, path: Path, host: Host, cb: Callback) returns (result: int, hung: bool)
    requires Separate(fleet) && path in fleet
    modifies Present(fleet)
    ensures var called := EffectOf(cb)(old(WorldsOf(fleet))[path]);
            && result == called.result && hung == called.hung
            && WorldsOf(fleet) == old(WorldsOf(fleet))[path := called.world]
  {
    var d := fleet[path];
    assert d in Present(fleet);
    match cb
    case FuncubeFlash(ctx) => result, hung := FlashCallback(d, host, ctx);
    case FcdReset(command) => result, hung := ResetCallback(d, command);
  }

  /** fcd_for_each: enumerate, walk the list up to the first error, free the list. The list is freed when, and
      only when, the call returns. */
  method FcdForEach(fleet: Fleet, devs: seq<UsbDevice>, host: Host, cb: Callback)
    returns (result: int, hung: bool, ghost list: InfoList)
    requires Separate(fleet) && Covers(WorldsOf(fleet), DonglePaths(devs))
    modifies Present(fleet)
    ensures Outcome(result, WorldsOf(fleet), hung) == Visit(EffectOf(cb), old(WorldsOf(fleet)), DonglePaths(devs))
    ensures fresh(list) && fresh(list.Nodes()) && Paths(list.Contents()) == DonglePaths(devs)
    ensures if hung then list.Live() else forall n <- list.Nodes() :: n.freed
  {
    var current := HidEnumerate(devs, FCD_USB_VID, FCD_USB_PID);
    list := current;
    result, hung := Walk(current, fleet, host, cb);
    if !hung {
      current.FreeEnumeration();
    }
  }

  method Walk(list: InfoList, fleet: Fleet, host: Host, cb: Callback) returns (result: int, hung: bool)
    requires list.Valid() && Separate(fleet) && Covers(WorldsOf(fleet), Paths(list.Contents()))
    modifies Present(fleet)
    ensures Outcome(result, WorldsOf(fleet), hung)
            == Visit(EffectOf(cb), old(WorldsOf(fleet)), Paths(list.Contents()))
  {
    result, hung := 0, false;
    var current := list.root;
    ghost var k := 0;
    ghost var paths := Paths(list.Contents());
    while current != null
      invariant 0 <= k <= |list.nodes| && current == NodeAt(list.nodes, k) && result == 0 && !hung
      invariant Covers(WorldsOf(fleet), paths[k..])
      invariant Visit(EffectOf(cb), old(WorldsOf(fleet)), paths) == Visit(EffectOf(cb), WorldsOf(fleet), paths[k..])
      decreases |list.nodes| - k
    {
      assert paths[k] == current.record.path && paths[k] in paths[k..] && paths[k..][1..] == paths[k + 1..];
      if current.record.path.Some? {
        result, hung := CallOn(fleet, current.record.path.value, host, cb);
        if hung || result != 0 {
          break;
        }
      }
      current, k := current.next, k + 1;
    }
  }

  /** fcd_reset_bootloader and fcd_reset_application: reset every dongle, then wait. */
  method ResetAll(fleet: Fleet, devs: seq<UsbDevice>, host: Host, command: Byte, delay: Word32)
    returns (hung: bool, sleeps: seq<nat>)
    requires Separate(fleet) && Covers(WorldsOf(fleet), DonglePaths(devs))
    modifies Present(fleet)
    ensures var o := Visit(Resetting(command), old(WorldsOf(fleet)), DonglePaths(devs));
            hung == o.hung && WorldsOf(fleet) == o.worlds
    ensures Timing.Sum(sleeps) == if hung then 0 else delay * 1000
  {
    sleeps := [];
    var result;
    ghost var list;
    result, hung, list := FcdForEach(fleet, devs, host, FcdReset(command));
    if !hung {
      sleeps := Timing.MsSleep(delay);
    }
  }

  /** The end of main: enter the bootloader, flash, restart. The exit code is 1 if the flash walk failed.
      before, after: the sleeps, in microseconds, after the two reset walks. */
  method RunActions(fleet: Fleet, boot: seq<UsbDevice>, flash: seq<UsbDevice>, app: seq<UsbDevice>,
                    host: Host, reset: bool, delay: Word32, ctx: Context)
    returns (result: int, hung: bool, before: seq<nat>, after: seq<nat>)
    requires Separate(fleet)
    requires Covers(WorldsOf(fleet), DonglePaths(boot)) && Covers(WorldsOf(fleet), DonglePaths(flash))
    requires Covers(WorldsOf(fleet), DonglePaths(app))
    modifies Present(fleet)
    ensures Outcome(result, WorldsOf(fleet), hung)
            == Main(reset, ctx, old(WorldsOf(fleet)), DonglePaths(boot), DonglePaths(flash), DonglePaths(app))
    ensures !hung ==> Timing.Sum(before) == Timing.Sum(after) == if reset then delay * 1000 else 0
  {
    result, hung, before, after := 0, false, [], [];
    if reset {
      hung, before := ResetAll(fleet, boot, host, CMD_RESET_BOOTLOADER, delay);
      if hung {
        return;
      }
    }
    var rc;
    ghost var list;
    rc, hung, list := FcdForEach(fleet, flash, host, FuncubeFlash(ctx));
    if rc != 0 {
      result := 1;
    }
    if hung {
      return;
    }
    if reset {
      hung, after := ResetAll(fleet, app, host, CMD_RESET_APPLICATION, delay);
    }
  }
}

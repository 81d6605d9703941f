/** Writing and verifying the firmware image: lib/fcd_bootloader.c. */
module Flasher {
  import opened Bytes
  import opened Transport

  // ---------------------------------------------------------------------------------------------
  // Specification: the calls as functions of the world
  // ---------------------------------------------------------------------------------------------

  type Image = seq<Byte>

  function SetAddress(w: World, addr: Word32): IoResult {
    Io(w, CMD_SET_BYTE_ADDR, 0, Le32(addr), 0)
  }

  function GetRange(w: World): IoResult {
    Io(w, CMD_GET_BYTE_ADDR_RANGE, 0, [], 8)
  }

  function WriteBlock(w: World, block: seq<Byte>): IoResult {
    Io(w, CMD_WRITE_BLOCK, 1, block, 0)
  }

  function ReadBlock(w: World): IoResult {
    Io(w, CMD_READ_BLOCK, 0, [], BLOCK)
  }

  predicate Blocks(image: Image, addr: nat, end: nat) {
    addr <= end <= |image| && (end - addr) % BLOCK == 0
  }

  /** Result of a loop: its code, the blocks it completed, the world it leaves. hung: it is still waiting for a
      response; code is then that of the step it waits in. */
  datatype Loop = Loop(code: int, done: nat, world: World, hung: bool)

  function WriteFrom(w: World, image: Image, addr: nat, end: nat): Loop
    requires Blocks(image, addr, end)
    decreases end - addr
  {
    if addr == end then Loop(0, 0, w, false)
    else
      var io := WriteBlock(w, image[addr..addr + BLOCK]);
      if io.result != 0 then Loop(-5, 0, io.world, io.hung)
      else var rest := WriteFrom(io.world, image, addr + BLOCK, end); rest.(done := rest.done + 1)
  }

  function VerifyFrom(w: World, image: Image, addr: nat, end: nat): Loop
    requires Blocks(image, addr, end)
    decreases end - addr
  {
    if addr == end then Loop(0, 0, w, false)
    else
      var io := ReadBlock(w);
      if io.result != 0 then Loop(-6, 0, io.world, io.hung)
      else if io.out != image[addr..addr + BLOCK] then Loop(1, 0, io.world, false)
      else var rest := VerifyFrom(io.world, image, addr + BLOCK, end); rest.(done := rest.done + 1)
  }

  predicate GoodRange(first: Word32, last: Word32) {
    first < last && (last - first) % BLOCK == 0
  }

  /** The size the library sees: an unsigned long passed as an unsigned int. */
  function SizeOf(image: Image): (n: Word32)
    ensures n <= |image|
  {
    |image| % U32
  }

  /** The two addresses of a range response. */
  function FirstOf(out: seq<Byte>): Word32
    requires |out| == 8
  {
    FromLe32(out[..4])
  }

  function LastOf(out: seq<Byte>): Word32
    requires |out| == 8
  {
    FromLe32(out[4..])
  }

  /** The checks on the range: 0 if the loops can walk it. */
  function RangeError(first: Word32, last: Word32, image: Image): (code: int)
    ensures code == 0 ==> Blocks(image, first, last)
  {
    if !GoodRange(first, last) then -2 else if last > SizeOf(image) then -3 else 0
  }

  datatype Task = Write | Verify

  /** What both calls do before their loop: range, checks, address. */
  datatype Start = Failed(code: int, world: World, hung: bool) | Ready(first: Word32, last: Word32, world: World)

  function Begin(w: World, image: Image): (r: Start)
    ensures r.Ready? ==> Blocks(image, r.first, r.last)
  {
    var range := GetRange(w);
    if range.result != 0 then Failed(-1, range.world, range.hung)
    else
      var first, last := FirstOf(range.out), LastOf(range.out);
      var error := RangeError(first, last, image);
      if error != 0 then Failed(error, range.world, false)
      else
        var io := SetAddress(range.world, first);
        if io.result != 0 then Failed(-4, io.world, io.hung) else Ready(first, last, io.world)
  }

  function Flash(task: Task, w: World, image: Image): Loop {
    match Begin(w, image)
    case Failed(code, world, hung) => Loop(code, 0, world, hung)
    case Ready(first, last, world) =>
      match task
      case Write => WriteFrom(world, image, first, last)
      case Verify => VerifyFrom(world, image, first, last)
  }

  // ---------------------------------------------------------------------------------------------
  // What single commands mean to the dongle
  // ---------------------------------------------------------------------------------------------

  /** Everything but the address pointer and the flash. */
  predicate SameDongle(d: Device, e: Device) {
    e == d.(mem := e.mem, pointer := e.pointer) && |e.mem| == |d.mem|
  }

  predicate SameFlash(d: Device, e: Device) {
    SameDongle(d, e) && e.mem == d.mem
  }

  /** The flash is the image on [lo, hi) and as before elsewhere. */
  predicate Programmed(before: seq<Byte>, after: seq<Byte>, image: Image, lo: nat, hi: nat) {
    && lo <= hi <= |image| && |after| == |before| && (lo < hi ==> hi <= |after|)
    && forall a :: 0 <= a < |after| ==> after[a] == if lo <= a < hi then image[a] else before[a]
  }

  predicate Agrees(mem: seq<Byte>, image: Image, lo: nat, hi: nat) {
    lo <= hi <= |image| && (lo < hi ==> hi <= |mem|) && forall a :: lo <= a < hi ==> mem[a] == image[a]
  }

  lemma RangeMeaning(w: World)
    ensures var io := GetRange(w);
            && io.world.dev == w.dev
            && (io.result == 0 ==> |io.out| == 8 && FirstOf(io.out) == w.dev.first
                                   && LastOf(io.out) == w.dev.last && w.dev.mode == Bootloader)
  {
    var io := GetRange(w);
    IoFailure(w, CMD_GET_BYTE_ADDR_RANGE, 0, [], 8);
    IoSound(w, CMD_GET_BYTE_ADDR_RANGE, 0, [], 8);
    var packet := Packet(CMD_GET_BYTE_ADDR_RANGE, 0, []);
    assert packet == [CMD_GET_BYTE_ADDR_RANGE];
    if io.result == 0 {
      var data := Le32(w.dev.first) + Le32(w.dev.last);
      assert io.out == data && data[..4] == Le32(w.dev.first) && data[4..] == Le32(w.dev.last);
      Le32RoundTrip(w.dev.first);
      Le32RoundTrip(w.dev.last);
    }
  }

  lemma AddressMeaning(w: World, addr: Word32)
    ensures var io := SetAddress(w, addr);
            && SameFlash(w.dev, io.world.dev)
            && (io.result == 0 ==> io.world.dev == w.dev.(pointer := addr) && w.dev.mode == Bootloader)
  {
    IoFailure(w, CMD_SET_BYTE_ADDR, 0, Le32(addr), 0);
    IoSound(w, CMD_SET_BYTE_ADDR, 0, Le32(addr), 0);
    var packet := Packet(CMD_SET_BYTE_ADDR, 0, Le32(addr));
    assert packet == [CMD_SET_BYTE_ADDR] + Le32(addr) && packet[1..5] == Le32(addr);
    Le32RoundTrip(addr);
  }

  /** A block is never trimmed, and the device finds it behind the skipped byte. */
  lemma BlockPacket(block: seq<Byte>)
    requires |block| == BLOCK
    ensures var packet := Packet(CMD_WRITE_BLOCK, 1, block);
            packet == [CMD_WRITE_BLOCK, 0] + block && packet[2..2 + BLOCK] == block
  {
  }

  /** Whatever happens, a block is written in full at the pointer or not at all, and success means written. */
  lemma WriteMeaning(w: World, image: Image, addr: nat)
    requires addr + BLOCK <= |image| && w.dev.pointer == addr
    ensures var io := WriteBlock(w, image[addr..addr + BLOCK]);
            var dev := io.world.dev;
            && SameDongle(w.dev, dev)
            && (dev.mem == w.dev.mem || Programmed(w.dev.mem, dev.mem, image, addr, addr + BLOCK))
            && (io.result == 0 ==> Programmed(w.dev.mem, dev.mem, image, addr, addr + BLOCK)
                                   && dev.pointer == addr + BLOCK)
  {
    var block := image[addr..addr + BLOCK];
    IoFailure(w, CMD_WRITE_BLOCK, 1, block, 0);
    IoSound(w, CMD_WRITE_BLOCK, 1, block, 0);
    BlockPacket(block);
    var dev := Exec(w.dev, Packet(CMD_WRITE_BLOCK, 1, block)).0;
    if w.dev.mode == Bootloader && addr + BLOCK <= |w.dev.mem| {
      assert dev.mem == w.dev.mem[..addr] + block + w.dev.mem[addr + BLOCK..];
      assert forall a :: 0 <= a < |dev.mem| ==>
          dev.mem[a] == if addr <= a < addr + BLOCK then image[a] else w.dev.mem[a];
    }
  }

  lemma ReadMeaning(w: World)
    ensures var io := ReadBlock(w);
            && SameFlash(w.dev, io.world.dev)
            && (io.result == 0 ==>
                  && w.dev.pointer + BLOCK <= |w.dev.mem|
                  && io.out == w.dev.mem[w.dev.pointer..w.dev.pointer + BLOCK]
                  && io.world.dev == w.dev.(pointer := w.dev.pointer + BLOCK))
  {
    IoFailure(w, CMD_READ_BLOCK, 0, [], BLOCK);
    IoSound(w, CMD_READ_BLOCK, 0, [], BLOCK);
    assert Packet(CMD_READ_BLOCK, 0, []) == [CMD_READ_BLOCK];
  }

  // ---------------------------------------------------------------------------------------------
  // The loops
  // ---------------------------------------------------------------------------------------------

  lemma ProgrammedThen(m0: seq<Byte>, m1: seq<Byte>, m2: seq<Byte>, image: Image, lo: nat, mid: nat, hi: nat)
    requires Programmed(m0, m1, image, lo, mid) && Programmed(m1, m2, image, mid, hi)
    ensures Programmed(m0, m2, image, lo, hi)
  {
  }

  /** Programmed up to known, and of the block after it all or nothing. */
  predicate WrittenUpTo(before: seq<Byte>, after: seq<Byte>, image: Image, lo: nat, known: nat) {
    Programmed(before, after, image, lo, known) || Programmed(before, after, image, lo, known + BLOCK)
  }

  lemma WrittenThen(m0: seq<Byte>, m1: seq<Byte>, m2: seq<Byte>, image: Image, lo: nat, mid: nat, known: nat)
    requires Programmed(m0, m1, image, lo, mid) && WrittenUpTo(m1, m2, image, mid, known)
    ensures WrittenUpTo(m0, m2, image, lo, known)
  {
    if Programmed(m1, m2, image, mid, known) {
      ProgrammedThen(m0, m1, m2, image, lo, mid, known);
    } else {
      ProgrammedThen(m0, m1, m2, image, lo, mid, known + BLOCK);
    }
  }

  /** A write loop that ends with 0 has programmed the whole range. One that ends with -5 has programmed the
      blocks it completed, and of the block it failed on either all or nothing. Nothing else changes. */
  ghost predicate WriteOutcome(w: World, loop: Loop, image: Image, addr: nat, end: nat) {
    var known := addr + BLOCK * loop.done;
    && SameDongle(w.dev, loop.world.dev)
    && (if loop.code == 0 then !loop.hung && known == end && Programmed(w.dev.mem, loop.world.dev.mem, image, addr, end)
        else loop.code == -5 && known < end && WrittenUpTo(w.dev.mem, loop.world.dev.mem, image, addr, known))
  }

  lemma {:induction false} WriteFromMeaning(w: World, image: Image, addr: nat, end: nat)
    requires Blocks(image, addr, end) && w.dev.pointer == addr
    ensures WriteOutcome(w, WriteFrom(w, image, addr, end), image, addr, end)
    decreases end - addr
  {
    if addr != end {
      WriteMeaning(w, image, addr);
      var io := WriteBlock(w, image[addr..addr + BLOCK]);
      if io.result == 0 {
        WriteFromMeaning(io.world, image, addr + BLOCK, end);
        WriteOutcomeThen(w, io.world, WriteFrom(io.world, image, addr + BLOCK, end), image, addr, end);
      }
    }
  }

  lemma WriteOutcomeThen(w: World, w': World, loop: Loop, image: Image, addr: nat, end: nat)
    requires SameDongle(w.dev, w'.dev) && Programmed(w.dev.mem, w'.dev.mem, image, addr, addr + BLOCK)
    requires WriteOutcome(w', loop, image, addr + BLOCK, end)
    ensures WriteOutcome(w, loop.(done := loop.done + 1), image, addr, end)
  {
    var mid, known := addr + BLOCK, addr + BLOCK + BLOCK * loop.done;
    if loop.code == 0 {
      ProgrammedThen(w.dev.mem, w'.dev.mem, loop.world.dev.mem, image, addr, mid, end);
    } else {
      WrittenThen(w.dev.mem, w'.dev.mem, loop.world.dev.mem, image, addr, mid, known);
    }
  }

  lemma BlockAgrees(mem: seq<Byte>, image: Image, addr: nat)
    requires addr + BLOCK <= |mem| && addr + BLOCK <= |image|
    ensures mem[addr..addr + BLOCK] == image[addr..addr + BLOCK] <==> Agrees(mem, image, addr, addr + BLOCK)
  {
    var a, b := mem[addr..addr + BLOCK], image[addr..addr + BLOCK];
    assert forall x :: addr <= x < addr + BLOCK ==> a[x - addr] == mem[x] && b[x - addr] == image[x];
    if Agrees(mem, image, addr, addr + BLOCK) {
      assert a == b;
    }
  }

  /** A verify loop changes no flash. Code 0 means agreement on the range, code 1 that the block it stopped
      on differs. */
  lemma {:induction false} VerifyFromMeaning(w: World, image: Image, addr: nat, end: nat)
    requires Blocks(image, addr, end) && w.dev.pointer == addr
    ensures var loop := VerifyFrom(w, image, addr, end);
            && SameFlash(w.dev, loop.world.dev)
            && (loop.code == 0 || loop.code == 1 || loop.code == -6)
            && (loop.code == 0 ==> Agrees(w.dev.mem, image, addr, end))
            && (loop.code == 1 ==> !Agrees(w.dev.mem, image, addr, end))
            && (loop.hung ==> loop.code == -6)
    decreases end - addr
  {
    if addr != end {
      var io := ReadBlock(w);
      ReadMeaning(w);
      if io.result == 0 {
        BlockAgrees(w.dev.mem, image, addr);
        if io.out == image[addr..addr + BLOCK] {
          VerifyFromMeaning(io.world, image, addr + BLOCK, end);
        }
      }
    }
  }

  // ---------------------------------------------------------------------------------------------
  // Main results
  // ---------------------------------------------------------------------------------------------

  /** The preliminaries change no flash, and their codes are exact. */
  lemma BeginMeaning(w: World, image: Image)
    ensures var first, last, start := w.dev.first, w.dev.last, Begin(w, image);
            && SameFlash(w.dev, start.world.dev)
            && match start
               case Ready(f, l, world) =>
                 && f == first && l == last && world.dev.pointer == first
                 && GoodRange(first, last) && last <= SizeOf(image)
               case Failed(code, _, hung) =>
                 && -4 <= code <= -1
                 && (hung ==> code == -1 || code == -4)
                 && (code == -2 ==> !GoodRange(first, last))
                 && (code == -3 ==> GoodRange(first, last) && last > SizeOf(image))
                 && (code == -4 ==> GoodRange(first, last) && last <= SizeOf(image))
  {
    RangeMeaning(w);
    AddressMeaning(GetRange(w).world, w.dev.first);
  }

  /** fcd_bl_flash_write, for every device, image and sequence of faults. */
  lemma FlashWriteMeaning(w: World, image: Image)
    ensures var loop := Flash(Write, w, image);
            var first, last, before, after := w.dev.first, w.dev.last, w.dev.mem, loop.world.dev.mem;
            && SameDongle(w.dev, loop.world.dev)
            && (loop.code == 0 || -5 <= loop.code <= -1)
            && (loop.code == 0 ==> Programmed(before, after, image, first, last))
            && (loop.code == -5 ==> first + BLOCK * loop.done < last
                                    && WrittenUpTo(before, after, image, first, first + BLOCK * loop.done))
            && (-4 <= loop.code <= -1 ==> after == before)
            && (loop.code == -2 ==> !GoodRange(first, last))
            && (loop.code == -3 ==> GoodRange(first, last) && last > SizeOf(image))
            && (loop.code in {0, -4, -5} ==> GoodRange(first, last) && last <= SizeOf(image))
            && (loop.hung ==> loop.code in {-1, -4, -5})
  {
    BeginMeaning(w, image);
    var start := Begin(w, image);
    if start.Ready? {
      WriteFromMeaning(start.world, image, start.first, start.last);
    }
  }

  /** fcd_bl_flash_verify is sound in both directions, whatever the faults, and changes no flash. */
  lemma FlashVerifyMeaning(w: World, image: Image)
    ensures var loop := Flash(Verify, w, image);
            && SameFlash(w.dev, loop.world.dev)
            && (loop.code in {0, 1, -1, -2, -3, -4, -6})
            && (loop.code == 0 ==> Agrees(w.dev.mem, image, w.dev.first, w.dev.last))
            && (loop.code == 1 ==> !Agrees(w.dev.mem, image, w.dev.first, w.dev.last))
            && (loop.code == -2 ==> !GoodRange(w.dev.first, w.dev.last))
            && (loop.code == -3 ==> GoodRange(w.dev.first, w.dev.last) && w.dev.last > SizeOf(image))
            && (loop.code in {0, 1, -4, -6} ==> GoodRange(w.dev.first, w.dev.last) && w.dev.last <= SizeOf(image))
            && (loop.hung ==> loop.code in {-1, -4, -6})
  {
    BeginMeaning(w, image);
    var start := Begin(w, image);
    if start.Ready? {
      VerifyFromMeaning(start.world, image, start.first, start.last);
    }
  }

  // ---------------------------------------------------------------------------------------------
  // Without faults
  // ---------------------------------------------------------------------------------------------

  lemma {:induction false} WriteFromCompletes(w: World, image: Image, addr: nat, end: nat)
    requires Blocks(image, addr, end) && w.dev.pointer == addr && w.faults == [] && w.dev.mode == Bootloader
    ensures var loop := WriteFrom(w, image, addr, end);
            && loop.world.faults == [] && !loop.hung
            && (loop.code == 0 <==> addr == end || end <= |w.dev.mem|)
    decreases end - addr
  {
    if addr != end {
      var block := image[addr..addr + BLOCK];
      IoComplete(w, CMD_WRITE_BLOCK, 1, block, 0);
      BlockPacket(block);
      WriteMeaning(w, image, addr);
      if addr + BLOCK <= |w.dev.mem| {
        WriteFromCompletes(WriteBlock(w, block).world, image, addr + BLOCK, end);
      }
    }
  }

  lemma {:induction false} VerifyFromCompletes(w: World, image: Image, addr: nat, end: nat)
    requires Blocks(image, addr, end) && w.dev.pointer == addr && w.faults == [] && w.dev.mode == Bootloader
    requires end <= |w.dev.mem|
    ensures var loop := VerifyFrom(w, image, addr, end);
            loop.code != -6 && loop.world.faults == []
    decreases end - addr
  {
    if addr != end {
      IoComplete(w, CMD_READ_BLOCK, 0, [], BLOCK);
      assert Packet(CMD_READ_BLOCK, 0, []) == [CMD_READ_BLOCK];
      ReadMeaning(w);
      VerifyFromCompletes(ReadBlock(w).world, image, addr + BLOCK, end);
    }
  }

  /** In the bootloader and without faults the preliminaries fail only for the range. */
  lemma BeginCompletes(w: World, image: Image)
    requires w.faults == [] && w.dev.mode == Bootloader
    ensures var start := Begin(w, image);
            && start.world.faults == []
            && match start
               case Ready(_, _, _) => true
               case Failed(code, _, hung) => !hung && code == if !GoodRange(w.dev.first, w.dev.last) then -2 else -3
  {
    IoComplete(w, CMD_GET_BYTE_ADDR_RANGE, 0, [], 8);
    assert Packet(CMD_GET_BYTE_ADDR_RANGE, 0, []) == [CMD_GET_BYTE_ADDR_RANGE];
    RangeMeaning(w);
    var addr := w.dev.first;
    IoComplete(GetRange(w).world, CMD_SET_BYTE_ADDR, 0, Le32(addr), 0);
    assert Packet(CMD_SET_BYTE_ADDR, 0, Le32(addr)) == [CMD_SET_BYTE_ADDR] + Le32(addr);
  }

  /** The exact code of a write without faults. */
  lemma FlashWriteComplete(w: World, image: Image)
    requires w.faults == [] && w.dev.mode == Bootloader
    ensures var loop := Flash(Write, w, image);
            && loop.world.faults == [] && !loop.hung
            && loop.code == if w.dev.first >= w.dev.last || (w.dev.last - w.dev.first) % 48 != 0 then -2
                            else if w.dev.last > |image| % 0x1_0000_0000 then -3
                            else if w.dev.last > |w.dev.mem| then -5 else 0
  {
    BeginMeaning(w, image);
    BeginCompletes(w, image);
    var start := Begin(w, image);
    if start.Ready? {
      WriteFromCompletes(start.world, image, start.first, start.last);
      WriteFromMeaning(start.world, image, start.first, start.last);
    }
  }

  /** The code of a verification without faults. On a valid range inside flash and image it is 0 exactly on
      agreement, else 1. */
  lemma FlashVerifyComplete(w: World, image: Image)
    requires w.faults == [] && w.dev.mode == Bootloader
    ensures var first, last, loop := w.dev.first, w.dev.last, Flash(Verify, w, image);
            if first >= last || (last - first) % 48 != 0 then loop.code == -2 && !loop.hung
            else if last > |image| % 0x1_0000_0000 then loop.code == -3 && !loop.hung
            else if last > |w.dev.mem| then loop.code == 1 || loop.code == -6
            else loop.world.faults == [] && !loop.hung
                 && loop.code == if Agrees(w.dev.mem, image, first, last) then 0 else 1
  {
    BeginMeaning(w, image);
    BeginCompletes(w, image);
    var start := Begin(w, image);
    if start.Ready? {
      VerifyFromMeaning(start.world, image, start.first, start.last);
      if w.dev.last <= |w.dev.mem| {
        VerifyFromCompletes(start.world, image, start.first, start.last);
      }
    }
  }

  /** After a successful write verifying the same image never reports a difference, and without further faults
      succeeds. */
  lemma VerifyAfterWrite(w: World, image: Image)
    requires Flash(Write, w, image).code == 0
    ensures var written := Flash(Write, w, image).world;
            && Flash(Verify, written, image).code in {0, -1, -4, -6}
            && (written.faults == [] ==>
                  Flash(Verify, written, image).code == 0 && !Flash(Verify, written, image).hung)
  {
    FlashWriteMeaning(w, image);
    var written := Flash(Write, w, image).world;
    FlashVerifyMeaning(written, image);
    RangeMeaning(w);
    if written.faults == [] {
      FlashVerifyComplete(written, image);
    }
  }

  // ---------------------------------------------------------------------------------------------
  // Calls that never return
  // ---------------------------------------------------------------------------------------------

  lemma {:induction false} WriteFromSteady(w: World, image: Image, addr: nat, end: nat)
    requires Blocks(image, addr, end) && Steady(w)
    ensures !WriteFrom(w, image, addr, end).hung && Steady(WriteFrom(w, image, addr, end).world)
    decreases end - addr
  {
    if addr != end {
      IoSteady(w, CMD_WRITE_BLOCK, 1, image[addr..addr + BLOCK], 0);
      WriteFromSteady(WriteBlock(w, image[addr..addr + BLOCK]).world, image, addr + BLOCK, end);
    }
  }

  lemma {:induction false} VerifyFromSteady(w: World, image: Image, addr: nat, end: nat)
    requires Blocks(image, addr, end) && Steady(w)
    ensures !VerifyFrom(w, image, addr, end).hung && Steady(VerifyFrom(w, image, addr, end).world)
    decreases end - addr
  {
    if addr != end {
      IoSteady(w, CMD_READ_BLOCK, 0, [], BLOCK);
      VerifyFromSteady(ReadBlock(w).world, image, addr + BLOCK, end);
    }
  }

  /** A call hangs only on a dongle with a session on which an exchange can hang. */
  lemma FlashSteady(task: Task, w: World, image: Image)
    requires Steady(w)
    ensures !Flash(task, w, image).hung && Steady(Flash(task, w, image).world)
  {
    IoSteady(w, CMD_GET_BYTE_ADDR_RANGE, 0, [], 8);
    var range := GetRange(w);
    if range.result == 0 {
      IoSteady(range.world, CMD_SET_BYTE_ADDR, 0, Le32(FirstOf(range.out)), 0);
    }
    var start := Begin(w, image);
    if start.Ready? {
      WriteFromSteady(start.world, image, start.first, start.last);
      VerifyFromSteady(start.world, image, start.first, start.last);
    }
  }

  // ---------------------------------------------------------------------------------------------
  // The code. hung: the call has not returned, and one handle stays open.
  // ---------------------------------------------------------------------------------------------

  method FcdGet(d: Dongle, command: Byte, data: array<Byte>, len: Byte)
    returns (result: int, errno: Errno, hung: bool)
    requires Min(len, RESPONSE_DATA_LEN) <= data.Length
    modifies d, data
    ensures var n := Min(len, RESPONSE_DATA_LEN);
            var io := Io(old(d.Now()), command, 0, [], n);
            && result == io.result && errno == io.errno && hung == io.hung && d.Now() == io.world
            && data[..] == if result == 0 then io.out + old(data[..])[n..] else old(data[..])
    ensures d.handles == old(d.handles) + if hung then 1 else 0
  {
    result, errno, hung := FcdIo(d, command, 0, None, 0, data, len);
  }

  method FcdSet(d: Dongle, command: Byte, data: seq<Byte>, len: Byte)
    returns (result: int, errno: Errno, hung: bool)
    requires |data| == len
    modifies d
    ensures var io := Io(old(d.Now()), command, 0, data, 0);
            result == io.result && errno == io.errno && hung == io.hung && d.Now() == io.world
    ensures d.handles == old(d.handles) + if hung then 1 else 0
  {
    assert data[..len] == data;
    result, errno, hung := FcdIo(d, command, 0, Some(data), len, null, 0);
  }

  method FcdBlEraseApplication(d: Dongle) returns (result: int, hung: bool)
    modifies d
    ensures var io := Io(old(d.Now()), CMD_ERASE_APPLICATION, 0, [], 0);
            result == io.result && hung == io.hung && d.Now() == io.world
    ensures hung ==> result != 0
    ensures d.handles == old(d.handles) + if hung then 1 else 0
  {
    var errno;
    result, errno, hung := FcdSet(d, CMD_ERASE_APPLICATION, [], 0);
  }

  method FcdBlSetAddress(d: Dongle, host: Host, addr: Word32) returns (result: int, hung: bool)
    modifies d
    ensures var io := SetAddress(old(d.Now()), addr);
            result == io.result && hung == io.hung && d.Now() == io.world
    ensures d.handles == old(d.handles) + if hung then 1 else 0
  {
    var address := ConvertLe32(host, addr);
    Converts32(host, addr, Le32(addr));
    var errno;
    result, errno, hung := FcdSet(d, CMD_SET_BYTE_ADDR, Store32(host, address), 4);
  }

  method FcdBlGetAddressRange(d: Dongle, host: Host) returns (result: int, start: Word32, end: Word32, hung: bool)
    modifies d
    ensures var io := GetRange(old(d.Now()));
            && result == io.result && hung == io.hung && d.Now() == io.world
            && (result == 0 ==> start == FirstOf(io.out) && end == LastOf(io.out))
    ensures d.handles == old(d.handles) + if hung then 1 else 0
  {
    var range := new Byte[8];
    start, end := 0, 0;
    var errno;
    result, errno, hung := FcdGet(d, CMD_GET_BYTE_ADDR_RANGE, range, 8);
    if result == 0 {
      ghost var out := GetRange(old(d.Now())).out;
      assert range[..] == out;
      assert range[0..4] == out[..4] && range[4..8] == out[4..];
      Converts32(host, 0, range[0..4]);
      Converts32(host, 0, range[4..8]);
      start := ConvertLe32(host, Load32(host, range[0..4]));
      end := ConvertLe32(host, Load32(host, range[4..8]));
    }
  }

  method FcdBlReadBlock(d: Dongle, block: array<Byte>) returns (result: int, hung: bool)
    requires block.Length == BLOCK
    modifies d, block
    ensures var io := ReadBlock(old(d.Now()));
            result == io.result && hung == io.hung && d.Now() == io.world && (result == 0 ==> block[..] == io.out)
    ensures d.handles == old(d.handles) + if hung then 1 else 0
  {
    var errno;
    result, errno, hung := FcdGet(d, CMD_READ_BLOCK, block, 48);
  }

  method FcdBlWriteBlock(d: Dongle, block: seq<Byte>) returns (result: int, hung: bool)
    requires |block| == BLOCK
    modifies d
    ensures var io := WriteBlock(old(d.Now()), block);
            result == io.result && hung == io.hung && d.Now() == io.world
    ensures d.handles == old(d.handles) + if hung then 1 else 0
  {
    assert block[..48] == block;
    var errno;
    result, errno, hung := FcdIo(d, CMD_WRITE_BLOCK, 1, Some(block), 48, null, 0);
  }

  /** The part fcd_bl_flash_write and fcd_bl_flash_verify have in common. */
  method FlashStart(d: Dongle, host: Host, ghost data: Image, size: Word32)
    returns (result: int, start: Word32, end: Word32, hung: bool)
    requires size == SizeOf(data)
    modifies d
    ensures match Begin(old(d.Now()), data)
            case Failed(code, world, h) => result == code && code != 0 && hung == h && d.Now() == world
            case Ready(first, last, world) =>
              result == 0 && !hung && start == first && end == last && d.Now() == world
    ensures hung ==> result != 0
    ensures d.handles == old(d.handles) + if hung then 1 else 0
  {
    var rc;
    rc, start, end, hung := FcdBlGetAddressRange(d, host);
    if rc != 0 {
      return -1, start, end, hung;
    }
    if start >= end || (end - start) % 48 != 0 {
      return -2, start, end, false;
    }
    if end > size {
      return -3, start, end, false;
    }
    rc, hung := FcdBlSetAddress(d, host, start);
    if rc != 0 {
      return -4, start, end, hung;
    }
    return 0, start, end, false;
  }

  /** The counter of the C loops is 32 bits wide; on the way to end it never wraps around. */
  function NextAddress(addr: Word32): Word32 {
    (addr + BLOCK) % U32
  }

  predicate SameEnd(a: Loop, b: Loop) {
    a.code == b.code && a.world == b.world && a.hung == b.hung
  }

  method WriteLoop(d: Dongle, data: Image, start: Word32, end: Word32) returns (result: int, hung: bool)
    requires Blocks(data, start, end)
    modifies d
    ensures var loop := WriteFrom(old(d.Now()), data, start, end);
            result == loop.code && hung == loop.hung && d.Now() == loop.world
    ensures hung ==> result != 0
    ensures d.handles == old(d.handles) + if hung then 1 else 0
  {
    var addr := start;
    while addr < end
      invariant Blocks(data, addr, end) && d.handles == old(d.handles)
      invariant SameEnd(WriteFrom(old(d.Now()), data, start, end), WriteFrom(d.Now(), data, addr, end))
      decreases end - addr
    {
      var rc;
      rc, hung := FcdBlWriteBlock(d, data[addr..addr + 48]);
      if rc != 0 {
        return -5, hung;
      }
      assert NextAddress(addr) == addr + 48 <= end;
      addr := NextAddress(addr);
    }
    return 0, false;
  }

  /** The body of the verify loop: read a block into a buffer of its own and compare. */
  method CompareBlock(d: Dongle, block: seq<Byte>) returns (result: int, hung: bool)
    requires |block| == BLOCK
    modifies d
    ensures var io := ReadBlock(old(d.Now()));
            && d.Now() == io.world
            && hung == io.hung
            && result == if io.result != 0 then -6 else if io.out != block then 1 else 0
    ensures hung ==> result != 0
    ensures d.handles == old(d.handles) + if hung then 1 else 0
  {
    var buffer := new Byte[48];
    var rc;
    rc, hung := FcdBlReadBlock(d, buffer);
    if rc != 0 {
      return -6, hung;
    }
    if buffer[..] != block {
      return 1, false;
    }
    return 0, false;
  }

  method VerifyLoop(d: Dongle, data: Image, start: Word32, end: Word32) returns (result: int, hung: bool)
    requires Blocks(data, start, end)
    modifies d
    ensures var loop := VerifyFrom(old(d.Now()), data, start, end);
            result == loop.code && hung == loop.hung && d.Now() == loop.world
    ensures hung ==> result != 0
    ensures d.handles == old(d.handles) + if hung then 1 else 0
  {
    var addr := start;
    while addr < end
      invariant Blocks(data, addr, end) && d.handles == old(d.handles)
      invariant SameEnd(VerifyFrom(old(d.Now()), data, start, end), VerifyFrom(d.Now(), data, addr, end))
      decreases end - addr
    {
      var rc;
      rc, hung := CompareBlock(d, data[addr..addr + 48]);
      if rc != 0 {
        return rc, hung;
      }
      assert NextAddress(addr) == addr + 48 <= end;
      addr := NextAddress(addr);
    }
    return 0, false;
  }

  /** fcd_bl_flash_write. size is the length of data as the caller's unsigned long becomes an unsigned int. */
  method FcdBlFlashWrite(d: Dongle, host: Host, data: Image, size: Word32) returns (result: int, hung: bool)
    requires size == SizeOf(data)
    modifies d
    ensures var loop := Flash(Write, old(d.Now()), data);
            result == loop.code && hung == loop.hung && d.Now() == loop.world
    ensures hung ==> result != 0
    ensures d.handles == old(d.handles) + if hung then 1 else 0
  {
    var start, end;
    result, start, end, hung := FlashStart(d, host, data, size);
    if result == 0 {
      result, hung := WriteLoop(d, data, start, end);
    }
  }

  /** fcd_bl_flash_verify. */
  method FcdBlFlashVerify(d: Dongle, host: Host, data: Image, size: Word32) returns (result: int, hung: bool)
    requires size == SizeOf(data)
    modifies d
    ensures var loop := Flash(Verify, old(d.Now()), data);
            result == loop.code && hung == loop.hung && d.Now() == loop.world
    ensures hung ==> result != 0
    ensures d.handles == old(d.handles) + if hung then 1 else 0
  {
    var start, end;
    result, start, end, hung := FlashStart(d, host, data, size);
    if result == 0 {
      result, hung := VerifyLoop(d, data, start, end);
    }
  }
}

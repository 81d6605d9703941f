/** get_usage and get_bytes of hidapi/hid-libusb.c: scanning a HID report descriptor for its Usage Page and
    Usage. The items are those of sections 6.2.2.2 and 6.2.2.3 of the HID specification 1.11, except that the
    code takes every prefix with high nibble 0xF for a long item. */
module UsageScan {
  import opened Bytes

  /** A key at offset start, the bytes from the key to the data, and the length the data claims. */
  datatype Item = Item(start: nat, key: Byte, header: nat, size: nat)

  const USAGE_PAGE := 0x4
  const USAGE := 0x8

  /** Bits 2 to 7 of the key: tag and type without the size code. */
  function KeyCommand(key: Byte): Byte {
    key - key % 4
  }

  predicate IsLong(key: Byte) {
    key / 0x10 == 0xf
  }

  function SizeOf(code: nat): nat {
    if code == 3 then 4 else code
  }

  function ItemAt(s: seq<Byte>, i: nat): Item
    requires i < |s|
  {
    if IsLong(s[i]) then Item(i, s[i], 3, if i + 1 < |s| then s[i + 1] else 0)
    else Item(i, s[i], 1, SizeOf(s[i] % 4))
  }

  function Items(s: seq<Byte>, i: nat): seq<Item>
    decreases |s| - i
  {
    if i >= |s| then []
    else [ItemAt(s, i)] + Items(s, End(ItemAt(s, i)))
  }

  /** The little-endian number after the key at cur, or 0 if the descriptor ends before it does. */
  function BytesValue(s: seq<Byte>, num: nat, cur: nat): Word32 {
    if cur + num >= |s| then 0
    else if num == 1 then s[cur + 1]
    else if num == 2 then FromLe16([s[cur + 1], s[cur + 2]])
    else if num == 4 then FromLe16([s[cur + 1], s[cur + 2]]) + U16 * FromLe16([s[cur + 3], s[cur + 4]])
    else 0
  }

  /** An unsigned short keeps the low 16 bits. */
  function Value(s: seq<Byte>, item: Item): Word16 {
    BytesValue(s, item.size, item.start) % U16
  }

  function End(item: Item): nat {
    item.start + item.header + item.size
  }

  predicate Has(items: seq<Item>, command: int) {
    exists item <- items :: KeyCommand(item.key) == command
  }

  /** The value of the last item of a kind, or what the variable held before. */
  function Latest(s: seq<Byte>, items: seq<Item>, command: int, before: Word16): Word16 {
    if items == [] then before
    else if KeyCommand(items[|items| - 1].key) == command then Value(s, items[|items| - 1])
    else Latest(s, items[..|items| - 1], command, before)
  }

  /** The first n items are the shortest prefix with items of both kinds. */
  predicate ShortestWithBoth(items: seq<Item>, n: nat) {
    && 0 < n <= |items|
    && Has(items[..n], USAGE_PAGE) && Has(items[..n], USAGE)
    && !(Has(items[..n - 1], USAGE_PAGE) && Has(items[..n - 1], USAGE))
  }

  /** What one call leaves behind, on success and on failure. */
  ghost predicate Scanned(s: seq<Byte>, page0: Word16, usage0: Word16, result: int, page: Word16, usage: Word16) {
    var items := Items(s, 0);
    if Has(items, USAGE_PAGE) && Has(items, USAGE) then
      && result == 0
      && exists n: nat :: ShortestWithBoth(items, n)
                     && page == Latest(s, items[..n], USAGE_PAGE, page0)
                     && usage == Latest(s, items[..n], USAGE, usage0)
    else
      && result == -1
      && page == Latest(s, items, USAGE_PAGE, page0)
      && usage == Latest(s, items, USAGE, usage0)
  }

  method GetBytes(rpt: array<Byte>, len: nat, num: nat, cur: nat) returns (value: Word32)
    requires len <= rpt.Length && cur < len
    requires num == 0 || num == 1 || num == 2 || num == 4
    ensures value == BytesValue(rpt[..len], num, cur)
    ensures cur + num >= len ==> value == 0
    ensures cur + num < len ==>
              value == match num
                       case 0 => 0
                       case 1 => rpt[cur + 1] as int
                       case 2 => rpt[cur + 1] as int + 0x100 * rpt[cur + 2] as int
                       case _ => rpt[cur + 1] as int + 0x100 * rpt[cur + 2] as int
                                 + 0x1_0000 * rpt[cur + 3] as int + 0x100_0000 * rpt[cur + 4] as int
  {
    if cur + num >= len {
      return 0;
    }
    if num == 0 {
      return 0;
    } else if num == 1 {
      return rpt[cur + 1];
    } else if num == 2 {
      return rpt[cur + 2] as int * 256 + rpt[cur + 1];
    } else {
      return (rpt[cur + 4] as int * 0x0100_0000 + rpt[cur + 3] as int * 0x0001_0000
              + rpt[cur + 2] as int * 0x0000_0100 + rpt[cur + 1]) % U32;
    }
  }

  lemma HasOneMore(items: seq<Item>, item: Item, command: int)
    ensures Has(items + [item], command) <==> Has(items, command) || KeyCommand(item.key) == command
  {
    if Has(items, command) {
      var x :| x in items && KeyCommand(x.key) == command;
      assert x in items + [item];
    }
    if KeyCommand(item.key) == command {
      assert item in items + [item];
    }
  }

  /** The scan has passed the items in done and stands at offset i. */
  ghost predicate Progress(s: seq<Byte>, i: nat, done: seq<Item>, page0: Word16, usage0: Word16,
                           page: Word16, usage: Word16)
  {
    && Items(s, 0) == done + Items(s, i)
    && page == Latest(s, done, USAGE_PAGE, page0)
    && usage == Latest(s, done, USAGE, usage0)
  }

  lemma Advance(s: seq<Byte>, i: nat, done: seq<Item>, page0: Word16, usage0: Word16, page: Word16, usage: Word16)
    requires i < |s| && Progress(s, i, done, page0, usage0, page, usage)
    ensures var item := ItemAt(s, i);
            var command := KeyCommand(item.key);
            && Progress(s, End(item), done + [item], page0, usage0,
                        if command == USAGE_PAGE then Value(s, item) else page,
                        if command == USAGE then Value(s, item) else usage)
            && (Has(done + [item], USAGE_PAGE) <==> Has(done, USAGE_PAGE) || command == USAGE_PAGE)
            && (Has(done + [item], USAGE) <==> Has(done, USAGE) || command == USAGE)
  {
    var item := ItemAt(s, i);
    HasOneMore(done, item, USAGE_PAGE);
    HasOneMore(done, item, USAGE);
    assert (done + [item])[..|done|] == done;
    assert Items(s, i) == [item] + Items(s, End(item));
    assert Items(s, 0) == (done + [item]) + Items(s, End(item));
  }

  lemma BothFound(s: seq<Byte>, i: nat, done: seq<Item>, item: Item,
                  page0: Word16, usage0: Word16, page: Word16, usage: Word16)
    requires Progress(s, i, done + [item], page0, usage0, page, usage)
    requires Has(done + [item], USAGE_PAGE) && Has(done + [item], USAGE)
    requires !(Has(done, USAGE_PAGE) && Has(done, USAGE))
    ensures Scanned(s, page0, usage0, 0, page, usage)
  {
    var items := Items(s, 0);
    var n := |done| + 1;
    assert items[..n] == done + [item] && items[..n - 1] == done;
    HasInLonger(items, n, USAGE_PAGE);
    HasInLonger(items, n, USAGE);
    assert ShortestWithBoth(items, n);
  }

  /** Length of the data and of what precedes it, by the size code or by the length byte of a long item. */
  method ItemLengths(descriptor: array<Byte>, size: nat, i: nat) returns (dataLen: nat, keySize: nat)
    requires i < size <= descriptor.Length
    ensures ItemAt(descriptor[..size], i) == Item(i, descriptor[i], keySize, dataLen)
    ensures descriptor[i] >= 0xf0 ==> keySize == 3 && dataLen == if i + 1 < size then descriptor[i + 1] as nat else 0
    ensures descriptor[i] < 0xf0 ==> keySize == 1 && dataLen == [0, 1, 2, 4][descriptor[i] % 4]
    ensures 1 <= keySize + dataLen <= 258
    ensures KeyCommand(descriptor[i]) == USAGE_PAGE || KeyCommand(descriptor[i]) == USAGE ==>
              dataLen == 0 || dataLen == 1 || dataLen == 2 || dataLen == 4
  {
    var key := descriptor[i];
    if IsLong(key) {
      if i + 1 < size {
        dataLen := descriptor[i + 1] as nat;
      } else {
        dataLen := 0;
      }
      keySize := 3;
    } else {
      dataLen, keySize := SizeOf(key % 4), 1;
    }
  }

  /** The size bound keeps the 32-bit index from wrapping around: an item is at most 3 + 255 bytes long. */
  method GetUsage(descriptor: array<Byte>, size: nat, page0: Word16, usage0: Word16)
    returns (result: int, page: Word16, usage: Word16)
    requires size <= descriptor.Length && size <= U32 - 259
    ensures Scanned(descriptor[..size], page0, usage0, result, page, usage)
  {
    page, usage := page0, usage0;
    ghost var s := descriptor[..size];
    ghost var done: seq<Item> := [];
    var i := 0;
    var usageFound, usagePageFound := false, false;
    while i < size
      invariant 0 <= i < U32
      invariant Progress(s, i, done, page0, usage0, page, usage)
      invariant usagePageFound == Has(done, USAGE_PAGE) && usageFound == Has(done, USAGE)
      invariant !(usagePageFound && usageFound)
      decreases size - i
    {
      ghost var item := ItemAt(s, i);
      Advance(s, i, done, page0, usage0, page, usage);
      var keyCommand := KeyCommand(descriptor[i]);
      var dataLen, keySize := ItemLengths(descriptor, size, i);
      if keyCommand == USAGE_PAGE {
        var v := GetBytes(descriptor, size, dataLen, i);
        page := v % U16;
        usagePageFound := true;
      }
      if keyCommand == USAGE {
        var v := GetBytes(descriptor, size, dataLen, i);
        usage := v % U16;
        usageFound := true;
      }
      if usagePageFound && usageFound {
        BothFound(s, End(item), done, item, page0, usage0, page, usage);
        return 0, page, usage;
      }
      done := done + [item];
      i := i + dataLen + keySize;
    }
    assert Items(s, 0) == done;
    return -1, page, usage;
  }

  lemma HasInLonger(items: seq<Item>, n: nat, command: int)
    requires n <= |items| && Has(items[..n], command)
    ensures Has(items, command)
  {
    var x :| x in items[..n] && KeyCommand(x.key) == command;
    assert x in items;
  }

  // ---------------------------------------------------------------------------------------------
  // The item list against a writer of descriptors
  // ---------------------------------------------------------------------------------------------

  /** The items of a descriptor follow each other without gap or overlap, from the first byte to the end. */
  lemma {:induction false} ItemsTile(s: seq<Byte>, i: nat)
    ensures var items := Items(s, i);
            && (i < |s| ==> items != [] && items[0].start == i && End(items[|items| - 1]) >= |s|)
            && (forall k :: 0 <= k < |items| ==> i <= items[k].start < |s|)
            && (forall k :: 0 < k < |items| ==> items[k].start == End(items[k - 1]))
    decreases |s| - i
  {
    if i < |s| {
      var item := ItemAt(s, i);
      ItemsTile(s, End(item));
      assert Items(s, i) == [item] + Items(s, End(item));
    }
  }

  /** An item as the specification writes it: a short one with a command and 0, 1, 2 or 4 data bytes, or a
      long one with its prefix, tag and up to 255 data bytes. */
  datatype RawEntry = Short(command: Byte, data: seq<Byte>) | Long(prefix: Byte, tag: Byte, data: seq<Byte>)

  type Entry = e: RawEntry | WellFormed(e) witness Short(0, [])

  predicate WellFormed(e: RawEntry) {
    match e
    case Short(command, data) => command % 4 == 0 && !IsLong(command) && |data| in {0, 1, 2, 4}
    case Long(prefix, _, data) => IsLong(prefix) && |data| < 0x100
  }

  function Encode(e: Entry): seq<Byte>
  {
    match e
    case Short(command, data) => [command + if |data| == 4 then 3 else |data|] + data
    case Long(prefix, tag, data) => [prefix, |data|, tag] + data
  }

  function EncodeAll(entries: seq<Entry>): seq<Byte>
  {
    if entries == [] then [] else Encode(entries[0]) + EncodeAll(entries[1..])
  }

  /** The number in an entry's data. */
  function Number(e: Entry): Word16
  {
    if e.Long? || |e.data| == 0 then 0
    else if |e.data| == 1 then e.data[0]
    else FromLe16([e.data[0], e.data[1]])
  }

  function Command(e: RawEntry): Byte {
    if e.Short? then e.command else KeyCommand(e.prefix)
  }

  /** The scanner's reading of an entry. */
  predicate Reads(s: seq<Byte>, item: Item, e: Entry)
  {
    && KeyCommand(item.key) == Command(e)
    && item.size == |e.data|
    && (e.Short? ==> Value(s, item) == Number(e))
  }

  predicate AllRead(s: seq<Byte>, items: seq<Item>, entries: seq<Entry>) {
    |items| == |entries| && forall k :: 0 <= k < |items| ==> Reads(s, items[k], entries[k])
  }

  lemma KeyReadsBack(command: Byte, code: nat)
    requires command % 4 == 0 && code < 4
    ensures command + code < 0x100 && (command + code) % 4 == code && (command + code) / 0x10 == command / 0x10
  {
  }

  lemma ReadsShort(s: seq<Byte>, i: nat, e: Entry)
    requires e.Short? && i + |Encode(e)| <= |s| && s[i..i + |Encode(e)|] == Encode(e)
    ensures Reads(s, ItemAt(s, i), e) && End(ItemAt(s, i)) == i + |Encode(e)|
  {
    var code := if |e.data| == 4 then 3 else |e.data|;
    KeyReadsBack(e.command, code);
    assert s[i] == Encode(e)[0] == e.command + code;
    assert forall k :: 0 <= k < |e.data| ==> s[i + 1 + k] == Encode(e)[1 + k] == e.data[k];
    var item := ItemAt(s, i);
    assert item == Item(i, s[i], 1, |e.data|);
    if |e.data| == 4 {
      assert e.data[0] == s[i + 1] && e.data[1] == s[i + 2];
    }
  }

  lemma ReadsLong(s: seq<Byte>, i: nat, e: Entry)
    requires e.Long? && i + |Encode(e)| <= |s| && s[i..i + |Encode(e)|] == Encode(e)
    ensures Reads(s, ItemAt(s, i), e) && End(ItemAt(s, i)) == i + |Encode(e)|
  {
    assert s[i] == Encode(e)[0] && s[i + 1] == Encode(e)[1];
  }

  lemma ReadsEntry(s: seq<Byte>, i: nat, e: Entry)
    requires i + |Encode(e)| <= |s| && s[i..i + |Encode(e)|] == Encode(e)
    ensures i < |s| && Reads(s, ItemAt(s, i), e) && End(ItemAt(s, i)) == i + |Encode(e)|
  {
    if e.Short? {
      ReadsShort(s, i, e);
    } else {
      ReadsLong(s, i, e);
    }
  }

  lemma AllReadOneMore(s: seq<Byte>, i: nat, next: nat, entries: seq<Entry>, rest: seq<Entry>)
    requires i < |s| && entries != [] && rest == entries[1..] && Reads(s, ItemAt(s, i), entries[0])
    requires next == End(ItemAt(s, i)) && AllRead(s, Items(s, next), rest)
    ensures AllRead(s, Items(s, i), entries)
  {
    var items := Items(s, i);
    assert items == [ItemAt(s, i)] + Items(s, End(ItemAt(s, i)));
    assert forall k :: 0 < k < |items| ==> items[k] == items[1..][k - 1];
  }

  lemma FirstEncoding(s: seq<Byte>, i: nat, entries: seq<Entry>) returns (next: nat)
    requires i <= |s| && s[i..] == EncodeAll(entries) && entries != []
    ensures i < next == i + |Encode(entries[0])| <= |s|
    ensures s[i..next] == Encode(entries[0]) && s[next..] == EncodeAll(entries[1..])
  {
    var first := Encode(entries[0]);
    next := i + |first|;
    assert s[i..] == first + EncodeAll(entries[1..]);
    assert s[i..next] == s[i..][..|first|] && s[next..] == s[i..][|first|..];
  }

  /** Reading back what was written gives the written list, entry by entry, for every list of entries. */
  lemma {:induction false} ItemsOfEncoding(s: seq<Byte>, i: nat, entries: seq<Entry>)
    requires i <= |s| && s[i..] == EncodeAll(entries)
    ensures AllRead(s, Items(s, i), entries)
    decreases |entries|
  {
    if entries != [] {
      var next := FirstEncoding(s, i, entries);
      ReadsEntry(s, i, entries[0]);
      var rest := entries[1..];
      ItemsOfEncoding(s, next, rest);
      AllReadOneMore(s, i, next, entries, rest);
    }
  }

  predicate Wrote(entries: seq<Entry>, command: int) {
    exists e <- entries :: Command(e) == command
  }

  predicate FirstWithBoth(entries: seq<Entry>, n: nat) {
    && 0 < n <= |entries|
    && Wrote(entries[..n], USAGE_PAGE) && Wrote(entries[..n], USAGE)
    && !(Wrote(entries[..n - 1], USAGE_PAGE) && Wrote(entries[..n - 1], USAGE))
  }

  /** The last number written for a command. */
  function LastNumber(entries: seq<Entry>, command: Byte, before: Word16): Word16
  {
    if entries == [] then before
    else if Command(entries[|entries| - 1]) == command then Number(entries[|entries| - 1])
    else LastNumber(entries[..|entries| - 1], command, before)
  }

  lemma {:induction false} LatestIsLastNumber(s: seq<Byte>, items: seq<Item>, entries: seq<Entry>,
                                             command: Byte, before: Word16)
    requires command == USAGE || command == USAGE_PAGE
    requires AllRead(s, items, entries)
    ensures Latest(s, items, command, before) == LastNumber(entries, command, before)
    decreases |items|
  {
    if items != [] {
      LatestIsLastNumber(s, items[..|items| - 1], entries[..|entries| - 1], command, before);
    }
  }

  /** End to end: on a written descriptor whose first entries up to number n are the first to hold both kinds,
      a scan succeeds with the last Usage Page and Usage among them. */
  lemma ScanOfEncoding(entries: seq<Entry>, n: nat, page0: Word16, usage0: Word16,
                       result: int, page: Word16, usage: Word16)
    requires FirstWithBoth(entries, n)
    requires Scanned(EncodeAll(entries), page0, usage0, result, page, usage)
    ensures result == 0
    ensures page == LastNumber(entries[..n], USAGE_PAGE, page0)
    ensures usage == LastNumber(entries[..n], USAGE, usage0)
  {
    var s := EncodeAll(entries);
    ItemsOfEncoding(s, 0, entries);
    var items := Items(s, 0);
    ShortestAsWritten(s, items, entries, n);
    ScanStopsAt(s, items, n, page0, usage0, result, page, usage);
    LatestIsLastNumber(s, items[..n], entries[..n], USAGE_PAGE, page0);
    LatestIsLastNumber(s, items[..n], entries[..n], USAGE, usage0);
  }

  /** A descriptor written without both kinds fails to scan and leaves the last number of each. */
  lemma ScanOfIncomplete(entries: seq<Entry>, page0: Word16, usage0: Word16,
                         result: int, page: Word16, usage: Word16)
    requires !(Wrote(entries, USAGE_PAGE) && Wrote(entries, USAGE))
    requires Scanned(EncodeAll(entries), page0, usage0, result, page, usage)
    ensures result == -1
    ensures page == LastNumber(entries, USAGE_PAGE, page0) && usage == LastNumber(entries, USAGE, usage0)
  {
    var s := EncodeAll(entries);
    ItemsOfEncoding(s, 0, entries);
    var items := Items(s, 0);
    HasIffWritten(s, items, entries, USAGE_PAGE);
    HasIffWritten(s, items, entries, USAGE);
    LatestIsLastNumber(s, items, entries, USAGE_PAGE, page0);
    LatestIsLastNumber(s, items, entries, USAGE, usage0);
  }

  /** The two keys on the wire: 05 is a Usage Page of one byte, 09 a Usage of one byte. */
  lemma ScanOfTwoKeys(x: Byte, y: Byte, page0: Word16, usage0: Word16, result: int, page: Word16, usage: Word16)
    requires Scanned([0x05, x, 0x09, y], page0, usage0, result, page, usage)
    ensures result == 0 && page == x && usage == y
  {
    var p: Entry, u: Entry := Short(0x04, [x]), Short(0x08, [y]);
    var entries := [p, u];
    assert EncodeAll([u]) == [0x09, y] && entries[1..] == [u];
    assert EncodeAll(entries) == [0x05, x] + EncodeAll(entries[1..]) == [0x05, x, 0x09, y];
    assert entries[..2] == entries && entries[..1] == [p];
    assert p in entries && u in entries;
    assert LastNumber(entries, USAGE_PAGE, page0) == LastNumber([p], USAGE_PAGE, page0) == x;
    ScanOfEncoding(entries, 2, page0, usage0, result, page, usage);
  }

  lemma ScanStopsAt(s: seq<Byte>, items: seq<Item>, n: nat, page0: Word16, usage0: Word16,
                    result: int, page: Word16, usage: Word16)
    requires items == Items(s, 0) && ShortestWithBoth(items, n) && Has(items, USAGE_PAGE) && Has(items, USAGE)
    requires Scanned(s, page0, usage0, result, page, usage)
    ensures result == 0
    ensures page == Latest(s, items[..n], USAGE_PAGE, page0) && usage == Latest(s, items[..n], USAGE, usage0)
  {
    var m: nat :| ShortestWithBoth(items, m)
                  && page == Latest(s, items[..m], USAGE_PAGE, page0) && usage == Latest(s, items[..m], USAGE, usage0);
    OneShortest(items, n, m);
  }

  lemma ShortestAsWritten(s: seq<Byte>, items: seq<Item>, entries: seq<Entry>, n: nat)
    requires AllRead(s, items, entries) && FirstWithBoth(entries, n)
    ensures ShortestWithBoth(items, n) && Has(items, USAGE_PAGE) && Has(items, USAGE)
  {
    HasIffWritten(s, items[..n], entries[..n], USAGE_PAGE);
    HasIffWritten(s, items[..n], entries[..n], USAGE);
    HasIffWritten(s, items[..n - 1], entries[..n - 1], USAGE_PAGE);
    HasIffWritten(s, items[..n - 1], entries[..n - 1], USAGE);
    HasInLonger(items, n, USAGE_PAGE);
    HasInLonger(items, n, USAGE);
  }

  lemma OneShortest(items: seq<Item>, n: nat, m: nat)
    requires ShortestWithBoth(items, n) && ShortestWithBoth(items, m)
    ensures n == m
  {
    if m < n {
      NoShorter(items, m, n);
    } else if n < m {
      NoShorter(items, n, m);
    }
  }

  lemma NoShorter(items: seq<Item>, m: nat, n: nat)
    requires m < n <= |items| && Has(items[..m], USAGE_PAGE) && Has(items[..m], USAGE)
    ensures Has(items[..n - 1], USAGE_PAGE) && Has(items[..n - 1], USAGE)
  {
    assert items[..n - 1][..m] == items[..m];
    HasInLonger(items[..n - 1], m, USAGE_PAGE);
    HasInLonger(items[..n - 1], m, USAGE);
  }

  lemma HasIffWritten(s: seq<Byte>, items: seq<Item>, entries: seq<Entry>, command: int)
    requires AllRead(s, items, entries)
    ensures Has(items, command) <==> Wrote(entries, command)
  {
    if item :| item in items && KeyCommand(item.key) == command {
      var k :| 0 <= k < |items| && items[k] == item;
      assert entries[k] in entries;
    }
    if e :| e in entries && Command(e) == command {
      var k :| 0 <= k < |entries| && entries[k] == e;
      assert items[k] in items;
    }
  }
}

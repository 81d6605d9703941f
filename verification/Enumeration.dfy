/** hid_enumerate, hid_free_enumeration and hid_open of hidapi/hid-libusb.c: the list built with a running
    tail pointer, against the filtered tree of devices, interfaces and altsettings. */
module Enumeration {
  import opened Bytes

  /** A device path, before formatting. */
  datatype Path = Path(bus: nat, address: nat, interfaceNumber: nat)

  datatype Altsetting = Altsetting(hid: bool, interfaceNumber: nat)

  type Interface = seq<Altsetting>

  /** serial: what reading the serial number gives once the device could be opened. */
  datatype UsbDevice = UsbDevice(vendorId: Word16, productId: Word16, bus: nat, address: nat,
                                 config: Option<seq<Interface>>, opens: bool, serial: Option<string>)

  /** The fields of hid_device_info. */
  datatype Record = Record(path: Option<Path>, vendorId: Word16, productId: Word16,
                           serial: Option<string>, interfaceNumber: nat)

  // ---------------------------------------------------------------------------------------------
  // Specification
  // ---------------------------------------------------------------------------------------------

  datatype Candidate = Candidate(device: UsbDevice, alt: Altsetting)

  function OfInterface(d: UsbDevice, alts: seq<Altsetting>): seq<Candidate> {
    seq(|alts|, k requires 0 <= k < |alts| => Candidate(d, alts[k]))
  }

  function OfDevice(d: UsbDevice, interfaces: seq<Interface>): seq<Candidate> {
    if interfaces == [] then []
    else OfDevice(d, interfaces[..|interfaces| - 1]) + OfInterface(d, interfaces[|interfaces| - 1])
  }

  function InterfacesOf(d: UsbDevice): seq<Interface> {
    if d.config.Some? then d.config.value else []
  }

  /** All altsettings of all interfaces of all devices that have a configuration, in order. */
  function Flatten(devs: seq<UsbDevice>): seq<Candidate> {
    if devs == [] then []
    else
      var d := devs[|devs| - 1];
      Flatten(devs[..|devs| - 1]) + OfDevice(d, InterfacesOf(d))
  }

  /** Zero stands for any id. */
  predicate Listed(c: Candidate, vendorId: Word16, productId: Word16) {
    && c.alt.hid
    && (vendorId == 0 || vendorId == c.device.vendorId)
    && (productId == 0 || productId == c.device.productId)
  }

  function RecordOf(c: Candidate): Record {
    var d := c.device;
    Record(Some(Path(d.bus, d.address, c.alt.interfaceNumber)), d.vendorId, d.productId,
           if d.opens then d.serial else None, c.alt.interfaceNumber)
  }

  function Select(cs: seq<Candidate>, vendorId: Word16, productId: Word16): seq<Record> {
    if cs == [] then []
    else
      var c := cs[|cs| - 1];
      Select(cs[..|cs| - 1], vendorId, productId) + if Listed(c, vendorId, productId) then [RecordOf(c)] else []
  }

  /** What hid_open looks for: the exact ids, and the serial number if one is given. */
  predicate Wanted(r: Record, vendorId: Word16, productId: Word16, serial: Option<string>) {
    r.vendorId == vendorId && r.productId == productId && (serial.Some? ==> serial == r.serial)
  }

  /** The path of the first HID altsetting of the tree that is wanted. */
  function FirstWanted(cs: seq<Candidate>, vendorId: Word16, productId: Word16, serial: Option<string>): Option<Path> {
    if cs == [] then None
    else
      var before, c := FirstWanted(cs[..|cs| - 1], vendorId, productId, serial), cs[|cs| - 1];
      if before.Some? then before
      else if c.alt.hid && Wanted(RecordOf(c), vendorId, productId, serial) then RecordOf(c).path
      else None
  }

  /** Searching the enumerated list and searching the tree come to the same, wildcard ids included. */
  lemma {:induction false} SearchOfSelection(cs: seq<Candidate>, vendorId: Word16, productId: Word16,
                                             serial: Option<string>)
    returns (k: nat)
    ensures var records := Select(cs, vendorId, productId);
            var found := FirstWanted(cs, vendorId, productId, serial);
            if found == None then forall r <- records :: !Wanted(r, vendorId, productId, serial)
            else FirstHit(records, k, found.value, vendorId, productId, serial)
    decreases |cs|
  {
    k := 0;
    if cs != [] {
      var c, init := cs[|cs| - 1], cs[..|cs| - 1];
      k := SearchOfSelection(init, vendorId, productId, serial);
      var before, records := Select(init, vendorId, productId), Select(cs, vendorId, productId);
      var earlier, found := FirstWanted(init, vendorId, productId, serial), FirstWanted(cs, vendorId, productId, serial);
      assert forall k :: 0 <= k < |before| ==> records[k] == before[k] && records[k] in before;
      if earlier == None && found.Some? {
        assert Listed(c, vendorId, productId) && records[|before|] == RecordOf(c);
        k := |before|;
      }
    }
  }

  lemma {:induction false} SelectAppend(a: seq<Candidate>, b: seq<Candidate>, vendorId: Word16, productId: Word16)
    ensures Select(a + b, vendorId, productId) == Select(a, vendorId, productId) + Select(b, vendorId, productId)
    decreases |b|
  {
    if b == [] {
      assert a + b == a;
    } else {
      SelectAppend(a, b[..|b| - 1], vendorId, productId);
      assert (a + b)[..|a + b| - 1] == a + b[..|b| - 1];
    }
  }

  // ---------------------------------------------------------------------------------------------
  // What the lists hold, in terms of the tree
  // ---------------------------------------------------------------------------------------------

  /** A place in the tree: device, interface and altsetting by index. */
  datatype Position = Position(device: nat, interface: nat, alt: nat)

  predicate InTree(devs: seq<UsbDevice>, at: Position) {
    && at.device < |devs| && devs[at.device].config.Some?
    && at.interface < |devs[at.device].config.value| && at.alt < |devs[at.device].config.value[at.interface]|
  }

  function AltAt(devs: seq<UsbDevice>, at: Position): Altsetting
    requires InTree(devs, at)
  {
    devs[at.device].config.value[at.interface][at.alt]
  }

  /** In the order the loops walk the tree. */
  predicate Before(a: Position, b: Position) {
    || a.device < b.device
    || (a.device == b.device && (a.interface < b.interface || (a.interface == b.interface && a.alt < b.alt)))
  }

  predicate Ascending(at: seq<Position>) {
    forall x, y :: 0 <= x < y < |at| ==> Before(at[x], at[y])
  }

  /** An HID altsetting of a device with these ids, where 0 stands for any. */
  predicate Matching(devs: seq<UsbDevice>, at: Position, vendorId: Word16, productId: Word16) {
    && InTree(devs, at) && AltAt(devs, at).hid
    && (vendorId != 0 ==> devs[at.device].vendorId == vendorId)
    && (productId != 0 ==> devs[at.device].productId == productId)
  }

  predicate Describes(r: Record, d: UsbDevice, alt: Altsetting) {
    && r.path == Some(Path(d.bus, d.address, alt.interfaceNumber)) && r.interfaceNumber == alt.interfaceNumber
    && r.vendorId == d.vendorId && r.productId == d.productId
    && (d.opens ==> r.serial == d.serial) && (!d.opens ==> r.serial == None)
  }

  /** The records describe these places, in the order of the tree, and no other place matches. */
  ghost predicate ListsAt(devs: seq<UsbDevice>, vendorId: Word16, productId: Word16, records: seq<Record>,
                          at: seq<Position>)
  {
    && |at| == |records| && Ascending(at)
    && (forall x :: 0 <= x < |at| ==> Matching(devs, at[x], vendorId, productId)
                                      && Describes(records[x], devs[at[x].device], AltAt(devs, at[x])))
    && forall a: Position :: Matching(devs, a, vendorId, productId) ==> a in at
  }

  lemma {:induction false} DevicePositions(d: nat, dev: UsbDevice, interfaces: seq<Interface>)
    returns (at: seq<Position>)
    ensures |at| == |OfDevice(dev, interfaces)| && Ascending(at)
    ensures forall x :: 0 <= x < |at| ==>
              && at[x].device == d && at[x].interface < |interfaces| && at[x].alt < |interfaces[at[x].interface]|
              && OfDevice(dev, interfaces)[x] == Candidate(dev, interfaces[at[x].interface][at[x].alt])
    ensures forall i: nat, k: nat :: i < |interfaces| && k < |interfaces[i]| ==> Position(d, i, k) in at
  {
    at := [];
    if interfaces != [] {
      var n := |interfaces| - 1;
      var before := DevicePositions(d, dev, interfaces[..n]);
      var more := seq(|interfaces[n]|, k requires 0 <= k < |interfaces[n]| => Position(d, n, k));
      at := before + more;
      forall i: nat, k: nat | i < |interfaces| && k < |interfaces[i]| ensures Position(d, i, k) in at {
        if i == n {
          assert more[k] == Position(d, i, k);
        } else {
          assert interfaces[..n][i] == interfaces[i] && Position(d, i, k) in before;
        }
      }
    }
  }

  /** The x-th candidate of the tree is at this place. */
  predicate IsAt(devs: seq<UsbDevice>, x: nat, a: Position) {
    x < |Flatten(devs)| && InTree(devs, a) && Flatten(devs)[x] == Candidate(devs[a.device], AltAt(devs, a))
  }

  /** One device more keeps the places before it and adds its own. */
  lemma PlacesKept(devs: seq<UsbDevice>, x: nat, a: Position)
    requires devs != []
    ensures IsAt(devs[..|devs| - 1], x, a) ==> IsAt(devs, x, a)
    ensures InTree(devs, a) && a.device < |devs| - 1 ==> InTree(devs[..|devs| - 1], a)
    ensures InTree(devs[..|devs| - 1], a) ==> a.device < |devs| - 1
  {
  }

  lemma {:induction false} TreePositions(devs: seq<UsbDevice>) returns (at: seq<Position>)
    ensures |at| == |Flatten(devs)| && Ascending(at)
    ensures forall x :: 0 <= x < |at| ==> IsAt(devs, x, at[x])
    ensures forall a: Position :: InTree(devs, a) ==> a in at
  {
    at := [];
    if devs != [] {
      var n := |devs| - 1;
      var before := TreePositions(devs[..n]);
      var more := DevicePositions(n, devs[n], InterfacesOf(devs[n]));
      at := before + more;
      forall x: nat | x < |at| ensures IsAt(devs, x, at[x]) && (x < |before| ==> at[x].device < n) {
        if x < |before| {
          assert IsAt(devs[..n], x, before[x]);
          PlacesKept(devs, x, before[x]);
        } else {
          var own := more[x - |before|];
          assert Flatten(devs)[x] == OfDevice(devs[n], InterfacesOf(devs[n]))[x - |before|];
          assert InTree(devs, own);
        }
      }
      forall a: Position | InTree(devs, a) ensures a in at {
        PlacesKept(devs, 0, a);
        if a.device == n {
          assert a == Position(n, a.interface, a.alt) && a in more;
        }
      }
    }
  }

  /** The x-th record selected is that of the i-th candidate. */
  predicate Picks(cs: seq<Candidate>, vendorId: Word16, productId: Word16, x: nat, i: nat) {
    && i < |cs| && Listed(cs[i], vendorId, productId)
    && x < |Select(cs, vendorId, productId)| && Select(cs, vendorId, productId)[x] == RecordOf(cs[i])
  }

  /** Which candidates are selected, in ascending order. */
  lemma {:induction false} Selected(cs: seq<Candidate>, vendorId: Word16, productId: Word16) returns (picked: seq<nat>)
    ensures |picked| == |Select(cs, vendorId, productId)|
    ensures forall x, y :: 0 <= x < y < |picked| ==> picked[x] < picked[y]
    ensures forall x :: 0 <= x < |picked| ==> Picks(cs, vendorId, productId, x, picked[x])
    ensures forall i: nat :: i < |cs| && Listed(cs[i], vendorId, productId) ==> i in picked
    decreases |cs|
  {
    picked := [];
    if cs != [] {
      var n := |cs| - 1;
      picked := Selected(cs[..n], vendorId, productId);
      forall x: nat, i: nat | Picks(cs[..n], vendorId, productId, x, i) ensures Picks(cs, vendorId, productId, x, i) {
      }
      assert forall x :: 0 <= x < |picked| ==> Picks(cs[..n], vendorId, productId, x, picked[x]);
      forall i: nat | i < n && Listed(cs[i], vendorId, productId) ensures i in picked {
        assert cs[..n][i] == cs[i];
      }
      if Listed(cs[n], vendorId, productId) {
        assert Picks(cs, vendorId, productId, |picked|, n);
        picked := picked + [n];
      }
    }
  }

  /** The enumerated list holds a record for each HID altsetting of a device with the ids, in the order of the
      tree, and nothing else. */
  lemma EnumeratedExactly(devs: seq<UsbDevice>, vendorId: Word16, productId: Word16) returns (at: seq<Position>)
    ensures ListsAt(devs, vendorId, productId, Select(Flatten(devs), vendorId, productId), at)
  {
    var cs, records := Flatten(devs), Select(Flatten(devs), vendorId, productId);
    var all := TreePositions(devs);
    var picked := Selected(cs, vendorId, productId);
    assert forall x :: 0 <= x < |picked| ==> Picks(cs, vendorId, productId, x, picked[x]);
    at := seq(|picked|, x requires 0 <= x < |picked| => all[picked[x]]);
    forall x | 0 <= x < |at|
      ensures Matching(devs, at[x], vendorId, productId)
      ensures Describes(records[x], devs[at[x].device], AltAt(devs, at[x]))
    {
      assert IsAt(devs, picked[x], at[x]);
    }
    forall a: Position | Matching(devs, a, vendorId, productId) ensures a in at {
      var i: nat :| i < |all| && all[i] == a;
      assert IsAt(devs, i, a);
      var x :| 0 <= x < |picked| && picked[x] == i;
      assert at[x] == a;
    }
  }

  /** What hid_open should open: the ids are exact, and the serial number counts if one is given. */
  predicate ToOpen(devs: seq<UsbDevice>, at: Position, vendorId: Word16, productId: Word16, serial: Option<string>) {
    && InTree(devs, at) && AltAt(devs, at).hid
    && devs[at.device].vendorId == vendorId && devs[at.device].productId == productId
    && (serial.Some? ==> devs[at.device].opens && devs[at.device].serial == serial)
  }

  lemma WantedIffToOpen(devs: seq<UsbDevice>, vendorId: Word16, productId: Word16, serial: Option<string>,
                        records: seq<Record>, at: seq<Position>)
    requires ListsAt(devs, vendorId, productId, records, at)
    ensures forall x :: 0 <= x < |at| ==>
              (Wanted(records[x], vendorId, productId, serial) <==> ToOpen(devs, at[x], vendorId, productId, serial))
    ensures forall b: Position :: ToOpen(devs, b, vendorId, productId, serial) ==> b in at
  {
    forall x | 0 <= x < |at|
      ensures Wanted(records[x], vendorId, productId, serial) <==> ToOpen(devs, at[x], vendorId, productId, serial)
    {
      assert Describes(records[x], devs[at[x].device], AltAt(devs, at[x]));
    }
    forall b: Position | ToOpen(devs, b, vendorId, productId, serial) ensures b in at {
      assert Matching(devs, b, vendorId, productId);
    }
  }

  /** This place is to be opened, and no place before it. */
  ghost predicate IsFirst(devs: seq<UsbDevice>, a: Position, path: Path,
                          vendorId: Word16, productId: Word16, serial: Option<string>)
  {
    && ToOpen(devs, a, vendorId, productId, serial)
    && path == Path(devs[a.device].bus, devs[a.device].address, AltAt(devs, a).interfaceNumber)
    && forall b: Position :: ToOpen(devs, b, vendorId, productId, serial) ==> a == b || Before(a, b)
  }

  /** The first place to open in the order of the tree, or that there is none. */
  lemma OpensFirst(devs: seq<UsbDevice>, vendorId: Word16, productId: Word16, serial: Option<string>)
    ensures var found := FirstWanted(Flatten(devs), vendorId, productId, serial);
            if found == None then forall a: Position :: !ToOpen(devs, a, vendorId, productId, serial)
            else exists a: Position :: IsFirst(devs, a, found.value, vendorId, productId, serial)
  {
    var records := Select(Flatten(devs), vendorId, productId);
    var at := EnumeratedExactly(devs, vendorId, productId);
    var k := SearchOfSelection(Flatten(devs), vendorId, productId, serial);
    WantedIffToOpen(devs, vendorId, productId, serial, records, at);
    var found := FirstWanted(Flatten(devs), vendorId, productId, serial);
    if found.Some? {
      FirstPlace(devs, vendorId, productId, serial, records, at, k, found.value);
    } else {
      assert forall y :: 0 <= y < |at| ==> records[y] in records;
    }
  }

  predicate FirstHit(records: seq<Record>, k: nat, path: Path,
                     vendorId: Word16, productId: Word16, serial: Option<string>)
  {
    && k < |records| && Wanted(records[k], vendorId, productId, serial) && records[k].path == Some(path)
    && forall j :: 0 <= j < k ==> !Wanted(records[j], vendorId, productId, serial)
  }

  lemma FirstPlace(devs: seq<UsbDevice>, vendorId: Word16, productId: Word16, serial: Option<string>,
                   records: seq<Record>, at: seq<Position>, k: nat, path: Path)
    requires ListsAt(devs, vendorId, productId, records, at)
    requires FirstHit(records, k, path, vendorId, productId, serial)
    ensures IsFirst(devs, at[k], path, vendorId, productId, serial)
  {
    WantedIffToOpen(devs, vendorId, productId, serial, records, at);
    assert Describes(records[k], devs[at[k].device], AltAt(devs, at[k]));
    forall b: Position | ToOpen(devs, b, vendorId, productId, serial) ensures at[k] == b || Before(at[k], b) {
      var y :| 0 <= y < |at| && at[y] == b;
    }
  }

  // ---------------------------------------------------------------------------------------------
  // The linked list
  // ---------------------------------------------------------------------------------------------

  /** struct hid_device_info. order is the node's place in the list; freed is set by free(). */
  class DeviceInfo {
    const record: Record
    ghost const order: nat
    var next: DeviceInfo?
    ghost var freed: bool

    constructor (record: Record, ghost order: nat)
      ensures this.record == record && this.order == order && next == null && !freed
    {
      this.record, this.order := record, order;
      next, freed := null, false;
    }
  }

  function NodeAt(s: seq<DeviceInfo>, k: nat): DeviceInfo? {
    if k < |s| then s[k] else null
  }

  function Records(s: seq<DeviceInfo>): (r: seq<Record>)
    ensures |r| == |s| && forall i :: 0 <= i < |s| ==> r[i] == s[i].record
  {
    seq(|s|, i requires 0 <= i < |s| => s[i].record)
  }

  /** root and cur_dev of hid_enumerate. */
  class InfoList {
    var root: DeviceInfo?
    var last: DeviceInfo?
    ghost var nodes: seq<DeviceInfo>

    ghost predicate Valid()
      reads this, nodes
    {
      && (forall i :: 0 <= i < |nodes| ==> nodes[i].order == i)
      && root == NodeAt(nodes, 0)
      && last == (if nodes == [] then null else nodes[|nodes| - 1])
      && (forall i {:trigger nodes[i].next} :: 0 <= i < |nodes| ==> nodes[i].next == NodeAt(nodes, i + 1))
    }

    /** Nothing is freed yet. */
    ghost predicate Live()
      reads this, nodes
    {
      forall i :: 0 <= i < |nodes| ==> !nodes[i].freed
    }

    ghost function Nodes(): set<DeviceInfo>
      reads this
    {
      set n | n in nodes
    }

    ghost function Contents(): seq<Record>
      reads this
    {
      Records(nodes)
    }

    constructor ()
      ensures Valid() && Live() && nodes == []
    {
      root, last, nodes := null, null, [];
    }

    /** cur_dev->next = tmp, or root = tmp; then cur_dev = tmp. */
    method Link(tmp: DeviceInfo)
      requires Valid() && tmp !in nodes && tmp.order == |nodes| && tmp.next == null
      modifies this, last
      ensures Valid() && nodes == old(nodes) + [tmp]
      ensures old(last) != null ==> old(last).freed == old(last.freed)
    {
      ghost var before := nodes;
      assert forall i :: 0 <= i < |before| - 1 ==> before[i] != last;
      if last != null {
        last.next := tmp;
      } else {
        root := tmp;
      }
      last := tmp;
      nodes := nodes + [tmp];
      assert forall i :: 0 <= i < |before| - 1 ==> before[i].next == old(before[i].next) == NodeAt(before, i + 1);
    }

    method Append(record: Record)
      requires Valid() && Live()
      modifies this, last
      ensures Valid() && Live() && fresh(Nodes() - old(Nodes()))
      ensures Contents() == old(Contents()) + [record]
    {
      var tmp := new DeviceInfo(record, |nodes|);
      ghost var before := nodes;
      Link(tmp);
      assert forall i :: 0 <= i < |before| ==> before[i].freed == old(before[i].freed);
    }

    /** hid_free_enumeration: next is read before the node is freed, and every node is freed exactly once. */
    method FreeEnumeration()
      requires Valid() && Live()
      modifies Nodes()
      ensures forall i :: 0 <= i < |nodes| ==> nodes[i].freed
    {
      var d := root;
      ghost var k := 0;
      while d != null
        invariant 0 <= k <= |nodes| && d == NodeAt(nodes, k)
        invariant Valid()
        invariant forall i :: 0 <= i < k ==> nodes[i].freed
        invariant forall i :: k <= i < |nodes| ==> !nodes[i].freed
        decreases |nodes| - k
      {
        var next := d.next;
        assert forall i :: 0 <= i < |nodes| && i != k ==> nodes[i] != d;
        Free(d);
        d, k := next, k + 1;
      }
    }
  }

  method Free(d: DeviceInfo)
    requires !d.freed
    modifies d`freed
    ensures d.freed
  {
    d.freed := true;
  }

  /** hid_enumerate. */
  method HidEnumerate(devs: seq<UsbDevice>, vendorId: Word16, productId: Word16) returns (list: InfoList)
    ensures fresh(list) && list.Valid() && list.Live() && fresh(list.Nodes())
    ensures list.Contents() == Select(Flatten(devs), vendorId, productId)
  {
    list := new InfoList();
    var i := 0;
    while i < |devs|
      invariant 0 <= i <= |devs| && list.Valid() && list.Live() && fresh(list.Nodes())
      invariant list.Contents() == Select(Flatten(devs[..i]), vendorId, productId)
    {
      var dev := devs[i];
      assert devs[..i + 1][..i] == devs[..i];
      if dev.config.Some? {
        EnumerateDevice(list, dev, dev.config.value, vendorId, productId);
      }
      SelectAppend(Flatten(devs[..i]), OfDevice(dev, InterfacesOf(dev)), vendorId, productId);
      i := i + 1;
    }
    assert devs[..i] == devs;
  }

  /** The two inner loops. */
  method EnumerateDevice(list: InfoList, dev: UsbDevice, interfaces: seq<Interface>,
                         vendorId: Word16, productId: Word16)
    requires list.Valid() && list.Live()
    modifies list, list.Nodes()
    ensures list.Valid() && list.Live() && fresh(list.Nodes() - old(list.Nodes()))
    ensures list.Contents() == old(list.Contents()) + Select(OfDevice(dev, interfaces), vendorId, productId)
  {
    var j := 0;
    while j < |interfaces|
      invariant 0 <= j <= |interfaces| && list.Valid() && list.Live() && fresh(list.Nodes() - old(list.Nodes()))
      invariant list.Contents() == old(list.Contents()) + Select(OfDevice(dev, interfaces[..j]), vendorId, productId)
    {
      ghost var before := list.Contents();
      EnumerateInterface(list, dev, interfaces[j], vendorId, productId);
      OneMoreInterface(old(list.Contents()), before, list.Contents(), dev, interfaces, j, vendorId, productId);
      j := j + 1;
    }
    assert interfaces[..j] == interfaces;
  }

  lemma OneMoreInterface(a: seq<Record>, b: seq<Record>, c: seq<Record>, dev: UsbDevice, interfaces: seq<Interface>,
                         j: nat, vendorId: Word16, productId: Word16)
    requires j < |interfaces|
    requires b == a + Select(OfDevice(dev, interfaces[..j]), vendorId, productId)
    requires c == b + Select(OfInterface(dev, interfaces[j]), vendorId, productId)
    ensures c == a + Select(OfDevice(dev, interfaces[..j + 1]), vendorId, productId)
  {
    assert interfaces[..j + 1][..j] == interfaces[..j];
    SelectAppend(OfDevice(dev, interfaces[..j]), OfInterface(dev, interfaces[j]), vendorId, productId);
  }

  function OfAltsetting(dev: UsbDevice, alt: Altsetting, vendorId: Word16, productId: Word16): seq<Record> {
    var c := Candidate(dev, alt); if Listed(c, vendorId, productId) then [RecordOf(c)] else []
  }

  lemma OneMoreAltsetting(a: seq<Record>, b: seq<Record>, c: seq<Record>, dev: UsbDevice, alts: seq<Altsetting>,
                          k: nat, vendorId: Word16, productId: Word16)
    requires k < |alts|
    requires b == a + Select(OfInterface(dev, alts[..k]), vendorId, productId)
    requires c == b + OfAltsetting(dev, alts[k], vendorId, productId)
    ensures c == a + Select(OfInterface(dev, alts[..k + 1]), vendorId, productId)
  {
    assert OfInterface(dev, alts[..k + 1])[..k] == OfInterface(dev, alts[..k]);
  }

  /** The body of the inner loop: an HID altsetting with matching ids gets a record at the tail. */
  method EnumerateAltsetting(list: InfoList, dev: UsbDevice, alt: Altsetting, vendorId: Word16, productId: Word16)
    requires list.Valid() && list.Live()
    modifies list, list.Nodes()
    ensures list.Valid() && list.Live() && fresh(list.Nodes() - old(list.Nodes()))
    ensures list.Contents() == old(list.Contents()) + OfAltsetting(dev, alt, vendorId, productId)
  {
    if alt.hid {
      if (vendorId == 0 || vendorId == dev.vendorId) && (productId == 0 || productId == dev.productId) {
        var serial := if dev.opens then dev.serial else None;
        list.Append(Record(Some(Path(dev.bus, dev.address, alt.interfaceNumber)),
                           dev.vendorId, dev.productId, serial, alt.interfaceNumber));
      }
    }
  }

  method EnumerateInterface(list: InfoList, dev: UsbDevice, alts: seq<Altsetting>, vendorId: Word16, productId: Word16)
    requires list.Valid() && list.Live()
    modifies list, list.Nodes()
    ensures list.Valid() && list.Live() && fresh(list.Nodes() - old(list.Nodes()))
    ensures list.Contents() == old(list.Contents()) + Select(OfInterface(dev, alts), vendorId, productId)
  {
    var k := 0;
    while k < |alts|
      invariant 0 <= k <= |alts| && list.Valid() && list.Live() && fresh(list.Nodes() - old(list.Nodes()))
      invariant list.Contents() == old(list.Contents()) + Select(OfInterface(dev, alts[..k]), vendorId, productId)
    {
      ghost var before := list.Contents();
      EnumerateAltsetting(list, dev, alts[k], vendorId, productId);
      OneMoreAltsetting(old(list.Contents()), before, list.Contents(), dev, alts, k, vendorId, productId);
      k := k + 1;
    }
    assert alts[..k] == alts;
  }

  /** The search loop of hid_open: the path of the first record wanted, at position k, or none. */
  predicate Found(records: seq<Record>, k: nat, path: Option<Path>,
                  vendorId: Word16, productId: Word16, serial: Option<string>)
  {
    && k <= |records|
    && (forall j :: 0 <= j < k ==> !Wanted(records[j], vendorId, productId, serial))
    && (if k < |records| then Wanted(records[k], vendorId, productId, serial) && path == records[k].path
        else path == None)
  }

  /** That search settles the search of the whole tree. */
  lemma SearchSettled(cs: seq<Candidate>, k: nat, path: Option<Path>,
                      vendorId: Word16, productId: Word16, serial: Option<string>)
    requires Found(Select(cs, vendorId, productId), k, path, vendorId, productId, serial)
    ensures FirstWanted(cs, vendorId, productId, serial) == path
  {
    var records := Select(cs, vendorId, productId);
    var first := SearchOfSelection(cs, vendorId, productId, serial);
    if k < |records| {
      assert records[k] in records;
    }
  }

  method Matches(r: Record, vendorId: Word16, productId: Word16, serial: Option<string>) returns (hit: bool)
    requires r.vendorId == vendorId && r.productId == productId && serial.Some? ==> r.serial.Some?
    ensures hit <==> Wanted(r, vendorId, productId, serial)
  {
    if r.vendorId == vendorId && r.productId == productId {
      if serial.Some? {
        if serial.value == r.serial.value {
          return true;
        }
      } else {
        return true;
      }
    }
    return false;
  }

  /** No comparison with a missing serial number: every record with the ids has one, up to the first match. */
  predicate Comparable(records: seq<Record>, vendorId: Word16, productId: Word16, serial: Option<string>) {
    forall k :: 0 <= k < |records| && Wanted(records[k], vendorId, productId, None)
                && serial.Some? && records[k].serial.None? ==>
      exists j :: 0 <= j < k && Wanted(records[j], vendorId, productId, serial)
  }

  method FindPath(list: InfoList, vendorId: Word16, productId: Word16, serial: Option<string>)
    returns (pathToOpen: Option<Path>)
    requires list.Valid() && Comparable(list.Contents(), vendorId, productId, serial)
    ensures exists k :: Found(list.Contents(), k, pathToOpen, vendorId, productId, serial)
  {
    pathToOpen := None;
    ghost var records := list.Contents();
    var cur := list.root;
    ghost var k := 0;
    while cur != null
      invariant 0 <= k <= |list.nodes| && cur == NodeAt(list.nodes, k)
      invariant forall j :: 0 <= j < k ==> !Wanted(records[j], vendorId, productId, serial)
      decreases |list.nodes| - k
    {
      assert cur.record == records[k];
      var hit := Matches(cur.record, vendorId, productId, serial);
      if hit {
        pathToOpen := cur.record.path;
        assert Found(list.Contents(), k, pathToOpen, vendorId, productId, serial);
        return;
      }
      cur, k := cur.next, k + 1;
    }
    assert Found(list.Contents(), k, pathToOpen, vendorId, productId, serial);
  }

  /** hid_open, up to the path it opens. */
  method HidOpen(devs: seq<UsbDevice>, vendorId: Word16, productId: Word16, serial: Option<string>)
    returns (pathToOpen: Option<Path>)
    requires Comparable(Select(Flatten(devs), vendorId, productId), vendorId, productId, serial)
    ensures pathToOpen == FirstWanted(Flatten(devs), vendorId, productId, serial)
  {
    var list := HidEnumerate(devs, vendorId, productId);
    pathToOpen := FindPath(list, vendorId, productId, serial);
    ghost var k :| Found(list.Contents(), k, pathToOpen, vendorId, productId, serial);
    SearchSettled(Flatten(devs), k, pathToOpen, vendorId, productId, serial);
    list.FreeEnumeration();
  }
}

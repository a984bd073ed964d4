// The fixed tables of uip_ds6.c and the search that all of them share: elements
// begin with a used flag and an address, compared over a prefix.
module Ds6List {
  import opened Bytes

  /** An IPv6 address. */
  type Ip = s: seq<Byte> | |s| == 16 witness Zeros(16)

  const WHOLE: nat := 128

  /** `uip_ipaddr_prefixcmp`: only whole octets of the prefix count. */
  predicate SamePrefix(a: Ip, b: Ip, length: nat)
    requires length <= WHOLE
  {
    a[..length / 8] == b[..length / 8]
  }

  datatype Found = Found(at: nat) | FreeSpace(slot: nat) | NoSpace

  predicate Matches<T>(key: T -> Option<Ip>, e: T, ip: Ip, length: nat)
    requires length <= WHOLE
  {
    key(e).Some? && SamePrefix(key(e).value, ip, length)
  }

  /** What the search must find: the first match, else the last free element, else nothing. */
  ghost predicate IsFound<T>(list: seq<T>, key: T -> Option<Ip>, ip: Ip, length: nat, r: Found)
    requires length <= WHOLE
  {
    match r
    case Found(i) =>
      i < |list| && Matches(key, list[i], ip, length) && forall j :: 0 <= j < i ==> !Matches(key, list[j], ip, length)
    case FreeSpace(i) =>
      && i < |list| && key(list[i]).None?
      && (forall j :: 0 <= j < |list| ==> !Matches(key, list[j], ip, length))
      && (forall j :: i < j < |list| ==> key(list[j]).Some?)
    case NoSpace =>
      forall j :: 0 <= j < |list| ==> key(list[j]).Some? && !Matches(key, list[j], ip, length)
  }

  /** The search from element `i` on, `free` being the last free element before it. */
  function Scan<T>(list: seq<T>, key: T -> Option<Ip>, ip: Ip, length: nat, i: nat, free: Option<nat>): (r: Found)
    requires length <= WHOLE && i <= |list|
    decreases |list| - i
  {
    if i == |list| then match free case None => NoSpace case Some(f) => FreeSpace(f)
    else if key(list[i]).None? then Scan(list, key, ip, length, i + 1, Some(i))
    else if SamePrefix(key(list[i]).value, ip, length) then Found(i)
    else Scan(list, key, ip, length, i + 1, free)
  }

  lemma {:induction false} ScanFinds<T>(list: seq<T>, key: T -> Option<Ip>, ip: Ip, length: nat, i: nat, free: Option<nat>)
    requires length <= WHOLE && i <= |list|
    requires forall j :: 0 <= j < i ==> !Matches(key, list[j], ip, length)
    requires match free
             case None => forall j :: 0 <= j < i ==> key(list[j]).Some?
             case Some(f) => f < i && key(list[f]).None? && forall j :: f < j < i ==> key(list[j]).Some?
    ensures IsFound(list, key, ip, length, Scan(list, key, ip, length, i, free))
    decreases |list| - i
  {
    if i < |list| {
      if key(list[i]).None? {
        ScanFinds(list, key, ip, length, i + 1, Some(i));
      } else if !SamePrefix(key(list[i]).value, ip, length) {
        ScanFinds(list, key, ip, length, i + 1, free);
      }
    }
  }

  /** `uip_ds6_list_loop`. */
  function ListLoop<T>(list: seq<T>, key: T -> Option<Ip>, ip: Ip, length: nat): (r: Found)
    requires length <= WHOLE
    ensures IsFound(list, key, ip, length, r)
  {
    ScanFinds(list, key, ip, length, 0, None);
    Scan(list, key, ip, length, 0, None)
  }

  /** A result that fits the description is the result. */
  lemma FoundUnique<T>(list: seq<T>, key: T -> Option<Ip>, ip: Ip, length: nat, r: Found)
    requires length <= WHOLE && IsFound(list, key, ip, length, r)
    ensures ListLoop(list, key, ip, length) == r
  {
    var s := ListLoop(list, key, ip, length);
    hide ListLoop;
    match r {
      case Found(i) => assert Matches(key, list[i], ip, length);
      case FreeSpace(i) => assert key(list[i]).None?;
      case NoSpace =>
    }
    match s {
      case Found(i) => assert Matches(key, list[i], ip, length);
      case FreeSpace(i) => assert key(list[i]).None?;
      case NoSpace =>
    }
  }

  /** The loop over the elements in place. */
  method Search<T>(list: array<T>, key: T -> Option<Ip>, ip: Ip, length: nat) returns (r: Found)
    requires length <= WHOLE
    ensures r == ListLoop(list[..], key, ip, length)
  {
    var free: Option<nat> := None;
    var i := 0;
    while i < list.Length
      invariant 0 <= i <= list.Length
      invariant ListLoop(list[..], key, ip, length) == Scan(list[..], key, ip, length, i, free)
    {
      var k := key(list[i]);
      if k.Some? {
        if SamePrefix(k.value, ip, length) { return Found(i); }
      } else {
        free := Some(i);
      }
      i := i + 1;
    }
    r := match free case None => NoSpace case Some(f) => FreeSpace(f);
  }
}

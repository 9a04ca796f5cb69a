/** The notification service, with its static table and bitmask updated in place. */
module NotificationService {
  import opened Notification
  import opened NotificationTheorems
  import opened NotificationMeaning

  /** `x5`-`x10` of the reply; `arg6` is the status as an unsigned byte. */
  datatype Response = Response(arg1: nat, arg2: nat, arg3: nat, arg4: nat, arg5: bv64, arg6: nat)

  function StatusByte(status: Status): nat {
    match status
    case Success => 0
    case NotSupported => 0xFF
    case InvalidParameter => 0xFE
    case NoMem => 0xFD
  }

  method IsMatchingCookie(cookie: nat, info: seq<Info>) returns (index: int)
    ensures index == CookieFrom(info, cookie, 0)
  {
    index := 0;
    while index < |info|
      invariant 0 <= index <= |info| && CookieFrom(info, cookie, 0) == CookieFrom(info, cookie, index)
    {
      if info[index].inUse && info[index].cookie == cookie {
        return;
      }
      index := index + 1;
    }
    index := -1;
  }

  method FindEmpty(info: seq<Info>) returns (index: int)
    ensures index == UnusedFrom(info, 0)
  {
    index := 0;
    while index < |info|
      invariant 0 <= index <= |info| && UnusedFrom(info, 0) == UnusedFrom(info, index)
    {
      if !info[index].inUse {
        return;
      }
      index := index + 1;
    }
    index := -1;
  }

  /** Writes the sixteen bytes of the UUID: the upper register first, most significant byte first. */
  method ExtractUuid(lo: nat, hi: nat, uuid: array<nat>)
    requires uuid.Length == 16
    modifies uuid
    ensures uuid[..] == UuidOf(lo, hi)
  {
    for index := 0 to 8
      invariant forall i :: 0 <= i < index ==> uuid[i] == UuidByte(lo, hi, i)
    {
      uuid[index] := ByteOf(hi, 7 - index);
    }
    for index := 8 to 16
      invariant forall i :: 0 <= i < index ==> uuid[i] == UuidByte(lo, hi, i)
    {
      uuid[index] := ByteOf(lo, 15 - index);
    }
  }

  class NotificationTable {
    var mask: set<nat>
    var services: seq<Service>

    ghost function View(): Registry
      reads this
    {
      Registry(mask, services)
    }

    ghost predicate Valid()
      reads this
    {
      Inv(View())
    }

    constructor ()
      ensures Valid() && View() == Initial()
    {
      mask := {};
      services := Initial().services;
      new;
      InitialHoldsInv();
    }

    method LocateService(uuid: seq<nat>, locateEmpty: bool) returns (index: int)
      requires WellShaped(View()) && |uuid| == 16
      ensures index == Locate(View(), uuid, locateEmpty)
    {
      index := 0;
      while index < MAX_SERVICES
        invariant 0 <= index <= MAX_SERVICES
        invariant Locate(View(), uuid, locateEmpty) == LocateFrom(services, uuid, locateEmpty, index)
      {
        if !locateEmpty && services[index].inUse {
          if uuid[..8] == services[index].uuid[..8] {
            return;
          }
        } else if locateEmpty && !services[index].inUse {
          return;
        }
        index := index + 1;
      }
      index := -1;
    }

    /** One mapping of a request, on the temporaries. */
    method UpdateOne(unregister: bool, source: nat, m: Mapping, info: seq<Info>, bits: set<nat>)
      returns (status: Status, info': seq<Info>, bits': set<nat>)
      ensures Applied(status, info', bits') == ApplyOne(unregister, source, m, info, bits)
    {
      status, info', bits' := Success, info, bits;
      var found := IsMatchingCookie(m.cookie, info);
      if unregister {
        if found == -1 {
          status := InvalidParameter;
        } else if info[found].id != m.id {
          status := InvalidParameter;
        } else if info[found].source != source {
          status := InvalidParameter;
        } else {
          info' := info[found := UNUSED];
          bits' := bits - {m.id};
        }
      } else {
        if found != -1 {
          status := InvalidParameter;
        } else if m.id in bits {
          status := InvalidParameter;
        } else {
          var empty := FindEmpty(info);
          if empty == -1 {
            status := NoMem;
          } else {
            info' := info[empty := EntryFor(source, m)];
            bits' := bits + {m.id};
          }
        }
      }
    }

    /** UpdateServiceInfo: the temporaries are copied back after each accepted mapping. */
    method UpdateServiceInfo(unregister: bool, q: Request, s: nat) returns (status: Status)
      requires s < |services| && |q.words| == MAPPING_MAX
      modifies this
      ensures (View(), status) == Update(old(View()), unregister, q, s)
    {
      hide ApplyOne;
      var n := q.arg6 % 0x100;
      if n < MAPPING_MIN || n > MAPPING_MAX {
        return InvalidParameter;
      }
      ghost var ms := Mappings(q);
      ghost var all := ApplyAll(unregister, q.source, ms, services[s].info, mask);
      CommitNothing(View(), s);
      var tempInfo, tempMask := services[s].info, mask;
      status := Success;
      var k := 0;
      while k < n
        invariant 0 <= k <= n == |ms| && status == Success
        invariant |services| == |old(services)| && tempInfo == services[s].info && tempMask == mask
        invariant View() == Commit(old(View()), s, Applied(Success, tempInfo, tempMask))
        invariant all == ApplyAll(unregister, q.source, ms[k..], tempInfo, tempMask)
      {
        var m := DecodeMapping(q.words[k]);
        assert ms[k..][0] == m && ms[k..][1..] == ms[k + 1..];
        RefusalChangesNothing(unregister, q.source, m, tempInfo, tempMask);
        status, tempInfo, tempMask := UpdateOne(unregister, q.source, m, tempInfo, tempMask);
        if status != Success {
          break;
        }
        services := services[s := services[s].(info := tempInfo)];
        mask := tempMask;
        k := k + 1;
      }
    }

    method RegisterHandler(q: Request) returns (status: Status)
      requires Valid() && Permitted(q)
      modifies this
      ensures Valid() && (View(), status) == Register(old(View()), q)
    {
      hide ApplyAll, Inv, UuidOf;
      InvIsWellShaped(View());
      RegisterKeepsInv(View(), q);
      var bytes := new nat[16];
      ExtractUuid(q.arg3, q.arg4, bytes);
      var uuid := bytes[..];
      var s := LocateService(uuid, false);
      if s == -1 {
        s := LocateService(uuid, true);
      }
      if s == -1 {
        return NoMem;
      }
      UpdateKeepsUuids(View(), false, q, s);
      status := UpdateServiceInfo(false, q, s);
      if status == Success && !services[s].inUse {
        services := services[s := services[s].(uuid := uuid, inUse := true)];
      }
    }

    method UnregisterHandler(q: Request) returns (status: Status)
      requires Valid() && Permitted(q)
      modifies this
      ensures Valid() && (View(), status) == Unregister(old(View()), q)
    {
      hide ApplyAll, Inv, UuidOf;
      InvIsWellShaped(View());
      var bytes := new nat[16];
      ExtractUuid(q.arg3, q.arg4, bytes);
      var s := LocateService(bytes[..], false);
      if s == -1 {
        return InvalidParameter;
      }
      UpdateKeepsInv(View(), true, q, s);
      status := UpdateServiceInfo(true, q, s);
    }

    method Handle(q: Request) returns (response: Response)
      requires Valid() && Permitted(q)
      modifies this
      ensures Valid() && View() == Notification.Handle(old(View()), q).0
      ensures response.arg6 ==
                match Notification.Handle(old(View()), q).1 {
                  case Success => 0
                  case NotSupported => 0xFF
                  case InvalidParameter => 0xFE
                  case NoMem => 0xFD
                }
      ensures response == Response(q.arg1, q.arg2, q.arg3, q.arg4, q.arg5 | 0x100, response.arg6)
    {
      hide Register, Unregister, Inv;
      InvIsWellShaped(View());
      var status;
      var opcode := q.arg5 & 3;
      if opcode == 0 || opcode == 1 {
        status := NotSupported;
      } else if opcode == 2 {
        status := RegisterHandler(q);
      } else {
        status := UnregisterHandler(q);
      }
      response := Response(q.arg1, q.arg2, q.arg3, q.arg4, q.arg5 | 0x100, StatusByte(status));
    }

    /** NotificationServiceIdSet: raises the notification of the first mapping with the cookie and
        succeeds exactly when there is one and raising it does; `accepted` is the outcome of that. */
    method SetId(cookie: nat, uuid: seq<nat>, flag: bv32, accepted: bool) returns (signal: Signal, status: Status)
      requires WellShaped(View()) && |uuid| == 16
      ensures signal == IdSet(View(), cookie, uuid, flag)
      ensures status == Success <==> signal != NoSignal && accepted
      ensures status == Success || status == InvalidParameter
      ensures Valid() && cookie != 0 ==> Signals(View(), cookie, uuid, flag, signal)
    {
      hide Inv, Signals;
      if Valid() && cookie != 0 {
        SignalMeans(View(), cookie, uuid, flag);
      }
      signal := NoSignal;
      status := InvalidParameter;
      var s := LocateService(uuid, false);
      if s != -1 {
        var index := 0;
        while index < MAX_MAPPINGS
          invariant 0 <= index <= MAX_MAPPINGS && signal == NoSignal && status == InvalidParameter
          invariant AnyCookieFrom(services[s].info, cookie, 0) == AnyCookieFrom(services[s].info, cookie, index)
        {
          var e := services[s].info[index];
          if e.cookie == cookie {
            signal := Signal(e.source, if e.perVcpu then flag | 1 else flag, e.id);
            if accepted {
              status := Success;
            }
            break;
          }
          index := index + 1;
        }
      }
    }
  }
}

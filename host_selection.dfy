/**
 * Which HRDLOG.net server the client talks to.  The configured `Hosts` value
 * is a bit set over the members of the `[Flags]` enum `Hosts`; the members
 * are scanned in enum order, only set members are pinged, and the first
 * whose ping reports success wins.  The ping itself is an oracle.
 */
module HostSelection {
  import opened Wrappers

  /** The members of `enum Hosts`, with their flag values. */
  datatype HostFlag = Primary | Secondary {
    function FlagValue(): bv32 {
      match this
      case Primary => 1
      case Secondary => 2
    }
  }

  /** `Enum.GetValues(typeof(Hosts))`: the members in ascending value order. */
  const AllHostFlags: seq<HostFlag> := [Primary, Secondary]

  /** The constructor's default `Hosts.Primary | Hosts.Secondary`. */
  const DefaultHosts: bv32 := 3

  /** `(hosts & host) != 0`. */
  predicate IsSet(hosts: bv32, flag: HostFlag) { hosts & flag.FlagValue() != 0 }

  /**
   * `GetHostAddress`: the DNS name behind each member, a host under
   * `hrdlog.net`; flag 1 is `robot`, flag 2 is `www`.
   */
  function GetHostAddress(flag: HostFlag): (r: string)
    ensures r == "robot.hrdlog.net" <==> flag.FlagValue() == 1
    ensures r == "www.hrdlog.net" <==> flag.FlagValue() == 2
    ensures |r| > 11 && r[|r| - 11..] == ".hrdlog.net"
  {
    match flag
    case Primary => "robot.hrdlog.net"
    case Secondary => "www.hrdlog.net"
  }

  /** A subset of `IPStatus` large enough to tell success from the rest. */
  datatype IPStatus = Success | Unknown | OtherStatus(code: int)

  /** What `Ping.SendPingAsync(addr, 5000)` did: replied with a status, or threw. */
  datatype PingOutcome = Replied(status: IPStatus) | PingThrew

  /** The status the source ends up testing: `Unknown` when the ping threw. */
  function ProbeStatus(p: PingOutcome): IPStatus
  {
    match p
    case Replied(s) => s
    case PingThrew => Unknown
  }

  predicate Reachable(p: PingOutcome) { ProbeStatus(p) == Success }

  /** Member `f` is configured and its host answers the ping. */
  predicate Answers(hosts: bv32, ping: string -> PingOutcome, f: HostFlag)
  {
    IsSet(hosts, f) && Reachable(ping(GetHostAddress(f)))
  }

  /** The address chosen when the members `flags` are scanned in order. */
  function SelectFrom(hosts: bv32, ping: string -> PingOutcome, flags: seq<HostFlag>): Option<string>
  {
    if flags == [] then None
    else if Answers(hosts, ping, flags[0]) then Some(GetHostAddress(flags[0]))
    else SelectFrom(hosts, ping, flags[1..])
  }

  /** The addresses pinged, in order, while scanning `flags`. */
  function ProbesFrom(hosts: bv32, ping: string -> PingOutcome, flags: seq<HostFlag>): seq<string>
  {
    if flags == [] then []
    else if !IsSet(hosts, flags[0]) then ProbesFrom(hosts, ping, flags[1..])
    else if Reachable(ping(GetHostAddress(flags[0]))) then [GetHostAddress(flags[0])]
    else [GetHostAddress(flags[0])] + ProbesFrom(hosts, ping, flags[1..])
  }

  /**
   * One step of the scan over `rest`, the members not yet looked at, when
   * `pinged` has been sent so far and the whole scan yields `selected` after
   * the pings `probes`.
   */
  lemma ScanAdvance(hosts: bv32, ping: string -> PingOutcome, rest: seq<HostFlag>,
                    pinged: seq<string>, selected: Option<string>, probes: seq<string>)
    requires rest != []
    requires SelectFrom(hosts, ping, rest) == selected
    requires pinged + ProbesFrom(hosts, ping, rest) == probes
    ensures !IsSet(hosts, rest[0]) ==>
      SelectFrom(hosts, ping, rest[1..]) == selected &&
      pinged + ProbesFrom(hosts, ping, rest[1..]) == probes
    ensures Answers(hosts, ping, rest[0]) ==>
      selected == Some(GetHostAddress(rest[0])) && pinged + [GetHostAddress(rest[0])] == probes
    ensures IsSet(hosts, rest[0]) && !Reachable(ping(GetHostAddress(rest[0]))) ==>
      SelectFrom(hosts, ping, rest[1..]) == selected &&
      (pinged + [GetHostAddress(rest[0])]) + ProbesFrom(hosts, ping, rest[1..]) == probes
  {
    var a := GetHostAddress(rest[0]);
    assert (pinged + [a]) + ProbesFrom(hosts, ping, rest[1..]) == pinged + ([a] + ProbesFrom(hosts, ping, rest[1..]));
  }

  /**
   * The result of `WhichHostIsReachableAsync`, `None` standing for `null`:
   * some address exactly when some configured member answers, and then the
   * address of such a member.
   */
  function SelectHost(hosts: bv32, ping: string -> PingOutcome): (r: Option<string>)
    ensures r.Some? <==> exists f :: f in AllHostFlags && Answers(hosts, ping, f)
    ensures r.Some? ==> exists f :: f in AllHostFlags && Answers(hosts, ping, f) && GetHostAddress(f) == r.value
  {
    ScanOfAllMembers(hosts, ping);
    SelectFrom(hosts, ping, AllHostFlags)
  }

  /**
   * The pings `WhichHostIsReachableAsync` sends: the configured addresses in
   * scan order, all of them when no host is selected, and otherwise ending
   * with the selected one.
   */
  function ProbedHosts(hosts: bv32, ping: string -> PingOutcome): (r: seq<string>)
    ensures r <= ConfiguredAddresses(hosts, AllHostFlags)
    ensures SelectHost(hosts, ping).None? ==> r == ConfiguredAddresses(hosts, AllHostFlags)
    ensures SelectHost(hosts, ping).Some? ==> r != [] && r[|r| - 1] == SelectHost(hosts, ping).value
  {
    ProbesFromShape(hosts, ping, AllHostFlags);
    ProbesFrom(hosts, ping, AllHostFlags)
  }

  /** `flags[k]` is the first member of `flags` that answers. */
  predicate FirstAnswerAt(hosts: bv32, ping: string -> PingOutcome, flags: seq<HostFlag>, k: int)
  {
    0 <= k < |flags| && Answers(hosts, ping, flags[k]) &&
    forall j :: 0 <= j < k ==> !Answers(hosts, ping, flags[j])
  }

  /** The scan returns the address of the first member that answers. */
  lemma {:induction false} SelectFromIsFirstAnswer(hosts: bv32, ping: string -> PingOutcome, flags: seq<HostFlag>, k: int)
    requires FirstAnswerAt(hosts, ping, flags, k)
    ensures SelectFrom(hosts, ping, flags) == Some(GetHostAddress(flags[k]))
  {
    if k > 0 {
      assert !Answers(hosts, ping, flags[0]);
      assert FirstAnswerAt(hosts, ping, flags[1..], k - 1) by {
        forall j | 0 <= j < k - 1 ensures !Answers(hosts, ping, flags[1..][j]) {
          assert flags[1..][j] == flags[j + 1];
        }
      }
      SelectFromIsFirstAnswer(hosts, ping, flags[1..], k - 1);
    }
  }

  /** The scan yields nothing exactly when no member of `flags` answers. */
  lemma {:induction false} SelectFromNone(hosts: bv32, ping: string -> PingOutcome, flags: seq<HostFlag>)
    ensures SelectFrom(hosts, ping, flags).None? <==>
            forall j :: 0 <= j < |flags| ==> !Answers(hosts, ping, flags[j])
  {
    if flags != [] {
      SelectFromNone(hosts, ping, flags[1..]);
      assert forall j :: 1 <= j < |flags| ==> flags[j] == flags[1..][j - 1];
    }
  }

  /**
   * Every address the scan returns belongs to a member that answers, and
   * every member before it failed to answer.
   */
  lemma {:induction false} SelectFromSound(hosts: bv32, ping: string -> PingOutcome, flags: seq<HostFlag>)
    requires SelectFrom(hosts, ping, flags).Some?
    ensures exists k :: FirstAnswerAt(hosts, ping, flags, k) &&
                        SelectFrom(hosts, ping, flags) == Some(GetHostAddress(flags[k]))
  {
    if Answers(hosts, ping, flags[0]) {
      assert FirstAnswerAt(hosts, ping, flags, 0);
    } else {
      SelectFromSound(hosts, ping, flags[1..]);
      var k :| FirstAnswerAt(hosts, ping, flags[1..], k) &&
               SelectFrom(hosts, ping, flags[1..]) == Some(GetHostAddress(flags[1..][k]));
      forall j | 0 <= j < k + 1 ensures !Answers(hosts, ping, flags[j]) {
        if j > 0 { assert flags[j] == flags[1..][j - 1]; }
      }
      assert FirstAnswerAt(hosts, ping, flags, k + 1);
    }
  }

  /** The addresses of the set members of `flags`, in order. */
  function ConfiguredAddresses(hosts: bv32, flags: seq<HostFlag>): seq<string>
  {
    if flags == [] then []
    else if IsSet(hosts, flags[0]) then [GetHostAddress(flags[0])] + ConfiguredAddresses(hosts, flags[1..])
    else ConfiguredAddresses(hosts, flags[1..])
  }

  /**
   * The pings sent are the configured addresses in scan order, cut off right
   * after the first one that answers: when a host is selected the last ping
   * is to that host, and when none is selected every configured address was
   * pinged exactly once.  Unset members are never pinged.
   */
  lemma {:induction false} ProbesFromShape(hosts: bv32, ping: string -> PingOutcome, flags: seq<HostFlag>)
    ensures ProbesFrom(hosts, ping, flags) <= ConfiguredAddresses(hosts, flags)
    ensures SelectFrom(hosts, ping, flags).None? ==>
              ProbesFrom(hosts, ping, flags) == ConfiguredAddresses(hosts, flags)
    ensures SelectFrom(hosts, ping, flags).Some? ==>
              var probes := ProbesFrom(hosts, ping, flags);
              probes != [] && probes[|probes| - 1] == SelectFrom(hosts, ping, flags).value
  {
    if flags != [] {
      ProbesFromShape(hosts, ping, flags[1..]);
    }
  }

  /**
   * Host selection spelled out for the two members: Primary
   * (`robot.hrdlog.net`) is preferred when its flag is set and it answers,
   * then Secondary (`www.hrdlog.net`); otherwise `null`.
   */
  lemma SelectHostCases(hosts: bv32, ping: string -> PingOutcome)
    ensures SelectHost(hosts, ping) ==
      if IsSet(hosts, Primary) && Reachable(ping("robot.hrdlog.net")) then Some("robot.hrdlog.net")
      else if IsSet(hosts, Secondary) && Reachable(ping("www.hrdlog.net")) then Some("www.hrdlog.net")
      else None
    ensures ProbedHosts(hosts, ping) ==
      (if IsSet(hosts, Primary) then ["robot.hrdlog.net"] else []) +
      (if IsSet(hosts, Secondary) && !(IsSet(hosts, Primary) && Reachable(ping("robot.hrdlog.net")))
       then ["www.hrdlog.net"] else [])
  {
    assert AllHostFlags[0] == Primary && AllHostFlags[1..] == [Secondary];
    assert [Secondary][0] == Secondary && [Secondary][1..] == [];
    assert SelectFrom(hosts, ping, [Secondary]) ==
      if Answers(hosts, ping, Secondary) then Some("www.hrdlog.net") else None;
    assert ProbesFrom(hosts, ping, [Secondary]) ==
      if IsSet(hosts, Secondary) then ["www.hrdlog.net"] else [];
  }

  /** The scan of all members yields an address exactly when a configured member answers. */
  lemma ScanOfAllMembers(hosts: bv32, ping: string -> PingOutcome)
    ensures SelectFrom(hosts, ping, AllHostFlags).Some? <==>
            exists f :: f in AllHostFlags && Answers(hosts, ping, f)
    ensures SelectFrom(hosts, ping, AllHostFlags).Some? ==>
            exists f :: f in AllHostFlags && Answers(hosts, ping, f) &&
                        GetHostAddress(f) == SelectFrom(hosts, ping, AllHostFlags).value
  {
    SelectFromNone(hosts, ping, AllHostFlags);
    if exists f :: f in AllHostFlags && Answers(hosts, ping, f) {
      var f :| f in AllHostFlags && Answers(hosts, ping, f);
      var j :| 0 <= j < |AllHostFlags| && AllHostFlags[j] == f;
    }
    if SelectFrom(hosts, ping, AllHostFlags).Some? {
      SelectFromSound(hosts, ping, AllHostFlags);
      var k :| FirstAnswerAt(hosts, ping, AllHostFlags, k) &&
               SelectFrom(hosts, ping, AllHostFlags) == Some(GetHostAddress(AllHostFlags[k]));
      assert AllHostFlags[k] in AllHostFlags;
    }
  }

  /** With no flag set nothing is pinged and the result is `null`. */
  lemma NoHostsConfigured(ping: string -> PingOutcome)
    ensures SelectHost(0, ping) == None && ProbedHosts(0, ping) == []
  {
    SelectHostCases(0, ping);
  }

  /** Only the two flag bits matter; other bits of the mask are ignored. */
  lemma SelectHostIgnoresOtherBits(hosts: bv32, ping: string -> PingOutcome)
    ensures SelectHost(hosts, ping) == SelectHost(hosts & DefaultHosts, ping)
    ensures ProbedHosts(hosts, ping) == ProbedHosts(hosts & DefaultHosts, ping)
  {
    FlagBitsKept(hosts);
    SelectHostCases(hosts, ping);
    SelectHostCases(hosts & DefaultHosts, ping);
  }

  lemma FlagBitsKept(hosts: bv32)
    ensures IsSet(hosts, Primary) == IsSet(hosts & DefaultHosts, Primary)
    ensures IsSet(hosts, Secondary) == IsSet(hosts & DefaultHosts, Secondary)
  {
    LowBitsKept(hosts);
  }

  lemma LowBitsKept(hosts: bv32)
    ensures (hosts & DefaultHosts) & 1 == hosts & 1
    ensures (hosts & DefaultHosts) & 2 == hosts & 2
  {
  }

  /** A ping that throws is never taken as success. */
  lemma ThrowingPingIsUnreachable()
    ensures !Reachable(PingThrew)
  {
  }
}

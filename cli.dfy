/**
  The two list loops of the cidr command: assembling the list of CIDR
  strings from the command-line argument and the config file (runCIDR),
  and checking an address against each of them (checkIPInCIDRs). Parsing
  and membership are Go library calls (net.ParseIP, net.ParseCIDR,
  IPNet.Contains); they are parameters here.
*/
module Cli {
  import opened Wrappers
  import opened IP

  /** The outcome of one CIDR in the membership scan. */
  datatype Verdict = InvalidCIDR | InRange | NotInRange

  /** What checkIPInCIDRs reports: one verdict per CIDR, and whether any contained the address. */
  datatype Report = Report(verdicts: seq<Verdict>, found: bool)

  datatype CheckError = InvalidIP(ip: string)

  /** The verdict for one CIDR string, given the parsed address. */
  function VerdictOf(
    ip: seq<bv8>, cidr: string,
    parseCIDR: string -> Option<Network>, contains: (Network, seq<bv8>) -> bool): Verdict
  {
    match parseCIDR(cidr)
    case None => InvalidCIDR
    case Some(n) => if contains(n, ip) then InRange else NotInRange
  }

  /**
    The scan of checkIPInCIDRs: an address that does not parse is an error
    before any CIDR is looked at; a CIDR that does not parse is reported and
    skipped; `found` is set exactly when some CIDR parses and contains the
    address.
  */
  method CheckIPInCIDRs(
    ipStr: string, cidrs: seq<string>,
    parseIP: string -> Option<seq<bv8>>,
    parseCIDR: string -> Option<Network>,
    contains: (Network, seq<bv8>) -> bool)
    returns (r: Result<Report, CheckError>)
    ensures r.Failure? <==> parseIP(ipStr).None?
    ensures r.Failure? ==> r.error == InvalidIP(ipStr)
    ensures r.Success? ==>
      |r.value.verdicts| == |cidrs| &&
      (forall i :: 0 <= i < |cidrs| ==>
         r.value.verdicts[i] == VerdictOf(parseIP(ipStr).value, cidrs[i], parseCIDR, contains))
    ensures r.Success? ==>
      (r.value.found <==> exists i :: (0 <= i < |cidrs| && parseCIDR(cidrs[i]).Some? &&
                                       contains(parseCIDR(cidrs[i]).value, parseIP(ipStr).value)))
    ensures r.Success? ==> (r.value.found <==> InRange in r.value.verdicts)
  {
    var parsed := parseIP(ipStr);
    if parsed.None? {
      return Failure(InvalidIP(ipStr));
    }
    var ip := parsed.value;
    var found := false;
    var verdicts: seq<Verdict> := [];
    for i := 0 to |cidrs|
      invariant |verdicts| == i
      invariant forall k :: 0 <= k < i ==> verdicts[k] == VerdictOf(ip, cidrs[k], parseCIDR, contains)
      invariant found <==> exists k :: (0 <= k < i && parseCIDR(cidrs[k]).Some? &&
                                        contains(parseCIDR(cidrs[k]).value, ip))
      invariant found <==> InRange in verdicts
    {
      var net := parseCIDR(cidrs[i]);
      if net.None? {
        verdicts := verdicts + [InvalidCIDR];
        continue;
      }
      if contains(net.value, ip) {
        verdicts := verdicts + [InRange];
        found := true;
      } else {
        verdicts := verdicts + [NotInRange];
      }
    }
    return Success(Report(verdicts, found));
  }

  /** Why runCIDR stops before showing anything. */
  datatype AssembleError =
    | ConfigUnavailable(reason: string)   // no argument, and the config file could not be loaded
    | NoCIDRs                              // neither the argument nor the config file gave a CIDR

  /** The CIDR strings to work on, and whether the config file contributed to them. */
  datatype Assembled = Assembled(cidrs: seq<string>, configLoaded: bool)

  /**
    Whether runCIDR consults the config file: when no CIDR argument is
    given, or when an address is to be checked.
  */
  predicate ConsultsConfig(args: seq<string>, checkIP: string)
  {
    |args| == 0 || checkIP != ""
  }

  /**
    The start of runCIDR: the first command-line argument (if any) comes
    first, then, when the config file is consulted and loads, its entries.
    A config file that fails to load is an error only when there is no
    argument; an empty list is an error in any case. The loaded config is
    a parameter (the outcome of loadConfigCIDRs).
  */
  method AssembleCIDRs(args: seq<string>, checkIP: string, config: Result<seq<string>, string>)
    returns (r: Result<Assembled, AssembleError>)
    ensures r.Success? ==> |r.value.cidrs| > 0
    ensures r.Success? ==> (r.value.configLoaded <==> ConsultsConfig(args, checkIP) && config.Success?)
    ensures r.Success? ==>
      r.value.cidrs == (if |args| > 0 then [args[0]] else [])
                       + (if r.value.configLoaded then config.value else [])
    ensures r.Failure? && r.error.ConfigUnavailable? <==>
      |args| == 0 && config.Failure?
    ensures r.Failure? && r.error.ConfigUnavailable? ==> r.error.reason == config.error
    ensures r.Failure? && r.error.NoCIDRs? <==>
      |args| == 0 && config.Success? && config.value == []
  {
    var cidrs: seq<string> := [];
    var configLoaded := false;
    if |args| > 0 {
      cidrs := cidrs + [args[0]];
    }
    if |cidrs| == 0 || checkIP != "" {
      if config.Success? {
        cidrs := cidrs + config.value;
        configLoaded := true;
      } else if |cidrs| == 0 {
        return Failure(ConfigUnavailable(config.error));
      }
    }
    if |cidrs| == 0 {
      return Failure(NoCIDRs);
    }
    return Success(Assembled(cidrs, configLoaded));
  }
}

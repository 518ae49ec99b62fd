/**
 Health monitors: chosen by app_runner_command_factory.go, written into an action by app_runner.go,
 read back by app_examiner.go; and the primary port that default routing is built on.
 */
module Monitors {
  import opened Numbers
  import opened Options
  import opened Routing
  import opened Sorting
  import opened Text

  datatype Method = NoMonitor | PortMonitor | UrlMonitor | CustomMonitor

  datatype MonitorConfig = MonitorConfig(kind: Method, port: Port, uri: string, timeout: int, customCommand: string)

  datatype RunAction = RunAction(path: string, args: seq<string>)

  datatype Monitor = Monitor(port: Port, uri: string, command: string, commandArgs: seq<string>)

  const EMPTY_MONITOR := Monitor(0, "", "", [])

  // ---------- writing the action ----------

  function TimeoutArgs(timeout: int, durationText: int -> string): seq<string> {
    if timeout == 0 then [] else ["-timeout", durationText(timeout)]
  }

  function MonitorAction(config: MonitorConfig, durationText: int -> string): Option<RunAction> {
    var timeoutArgs := TimeoutArgs(config.timeout, durationText);
    match config.kind
    case NoMonitor => None
    case PortMonitor => Some(RunAction("/tmp/healthcheck", timeoutArgs + ["-port", Print(config.port)]))
    case UrlMonitor =>
      Some(RunAction("/tmp/healthcheck", timeoutArgs + ["-port", Print(config.port), "-uri", config.uri]))
    case CustomMonitor => Some(RunAction("/bin/sh", ["-c", config.customCommand]))
  }

  /** The monitor part of desireLrp: an argument slice grown by cases. */
  method BuildMonitor(config: MonitorConfig, durationText: int -> string) returns (action: Option<RunAction>)
    ensures action == MonitorAction(config, durationText)
  {
    var healthCheckArgs: seq<string> := [];
    if config.timeout != 0 {
      healthCheckArgs := healthCheckArgs + ["-timeout", durationText(config.timeout)];
    }
    assert healthCheckArgs == TimeoutArgs(config.timeout, durationText);
    match config.kind
    case NoMonitor => action := None;
    case PortMonitor =>
      healthCheckArgs := healthCheckArgs + ["-port", Print(config.port)];
      action := Some(RunAction("/tmp/healthcheck", healthCheckArgs));
    case UrlMonitor =>
      healthCheckArgs := healthCheckArgs + ["-port", Print(config.port), "-uri", config.uri];
      action := Some(RunAction("/tmp/healthcheck", healthCheckArgs));
    case CustomMonitor =>
      action := Some(RunAction("/bin/sh", ["-c", config.customCommand]));
  }

  /** The whole argument list of a health check, case by case; without a monitor there is no action. */
  lemma HealthCheckArguments(config: MonitorConfig, durationText: int -> string, port: string, timeout: string)
    requires port == Print(config.port) && timeout == durationText(config.timeout)
    ensures config.kind.NoMonitor? <==> MonitorAction(config, durationText).None?
    ensures config.kind.PortMonitor? && config.timeout == 0 ==>
              MonitorAction(config, durationText) == Some(RunAction("/tmp/healthcheck", ["-port", port]))
    ensures config.kind.PortMonitor? && config.timeout != 0 ==>
              MonitorAction(config, durationText)
              == Some(RunAction("/tmp/healthcheck", ["-timeout", timeout, "-port", port]))
    ensures config.kind.UrlMonitor? && config.timeout == 0 ==>
              MonitorAction(config, durationText)
              == Some(RunAction("/tmp/healthcheck", ["-port", port, "-uri", config.uri]))
    ensures config.kind.UrlMonitor? && config.timeout != 0 ==>
              MonitorAction(config, durationText)
              == Some(RunAction("/tmp/healthcheck", ["-timeout", timeout, "-port", port, "-uri", config.uri]))
    ensures config.kind.CustomMonitor? ==>
              MonitorAction(config, durationText) == Some(RunAction("/bin/sh", ["-c", config.customCommand]))
  {
    var args := ["-port", port];
    var withUri := ["-port", port, "-uri", config.uri];
    assert [] + args == args && [] + withUri == withUri;
    assert ["-timeout", timeout] + args == ["-timeout", timeout, "-port", port];
    assert ["-timeout", timeout] + withUri == ["-timeout", timeout, "-port", port, "-uri", config.uri];
  }

  // ---------- reading it back ----------

  /** What argument i does to the port and URI found so far; it is examined even when it is a value. */
  function ArgStep(args: seq<string>, i: nat, found: (Port, string)): (Port, string)
    requires i < |args|
  {
    if args[i] == "-port" && i + 1 < |args| then
      match ParseUint16(args[i + 1])
      case Some(p) => (p, found.1)
      case None => found
    else if args[i] == "-uri" && i + 1 < |args| then (found.0, args[i + 1])
    else found
  }

  function ScanArgs(args: seq<string>, n: nat): (Port, string)
    requires n <= |args|
  {
    if n == 0 then (0, "") else ArgStep(args, n - 1, ScanArgs(args, n - 1))
  }

  function MonitorOf(action: Option<RunAction>): Monitor {
    match action
    case None => EMPTY_MONITOR
    case Some(run) =>
      var (port, uri) := ScanArgs(run.args, |run.args|);
      if port != 0 || uri != "" then Monitor(port, uri, "", []) else Monitor(0, "", run.path, run.args)
  }

  /** parseMonitor */
  method ParseMonitor(action: Option<RunAction>) returns (monitor: Monitor)
    ensures monitor == MonitorOf(action)
  {
    if action.None? {
      return EMPTY_MONITOR;
    }
    var args := action.value.args;
    var port: Port, uri := 0, "";
    for i := 0 to |args|
      invariant (port, uri) == ScanArgs(args, i)
    {
      if args[i] == "-port" && |args| > i + 1 {
        var p := ParseUint16(args[i + 1]);
        if p.Some? {
          port := p.value;
        }
      } else if args[i] == "-uri" && |args| > i + 1 {
        uri := args[i + 1];
      }
    }
    if port != 0 || uri != "" {
      return Monitor(port, uri, "", []);
    } else {
      return Monitor(0, "", action.value.path, args);
    }
  }

  /** Argument k is a flag with a 16-bit number behind it. */
  predicate IsPortFlag(args: seq<string>, k: int) {
    0 <= k < |args| - 1 && args[k] == "-port" && ParseUint16(args[k + 1]).Some?
  }

  predicate IsUriFlag(args: seq<string>, k: int) {
    0 <= k < |args| - 1 && args[k] == "-uri"
  }

  /** The number behind the last port flag among the first n arguments, 0 without one. */
  ghost predicate LastPort(args: seq<string>, n: nat, port: Port) {
    || (port == 0 && forall k :: 0 <= k < n ==> !IsPortFlag(args, k))
    || exists k :: 0 <= k < n && IsPortFlag(args, k) && ParseUint16(args[k + 1]) == Some(port)
                   && forall l :: k < l < n ==> !IsPortFlag(args, l)
  }

  /** The text behind the last URI flag among the first n arguments, empty without one. */
  ghost predicate LastUri(args: seq<string>, n: nat, uri: string) {
    || (uri == "" && forall k :: 0 <= k < n ==> !IsUriFlag(args, k))
    || exists k :: 0 <= k < n && IsUriFlag(args, k) && args[k + 1] == uri
                   && forall l :: k < l < n ==> !IsUriFlag(args, l)
  }

  lemma ArgStepPort(args: seq<string>, n: nat, port: Port, found: (Port, string))
    requires n < |args| && LastPort(args, n + 1, port)
    requires !IsPortFlag(args, n) ==> LastPort(args, n, port) ==> found.0 == port
    ensures ArgStep(args, n, found).0 == port
  {
  }

  lemma ArgStepUri(args: seq<string>, n: nat, uri: string, found: (Port, string))
    requires n < |args| && LastUri(args, n + 1, uri)
    requires !IsUriFlag(args, n) ==> LastUri(args, n, uri) ==> found.1 == uri
    ensures ArgStep(args, n, found).1 == uri
  {
    assert "-uri"[1] != "-port"[1];
  }

  lemma {:induction false} ScanFindsLast(args: seq<string>, n: nat, port: Port, uri: string)
    requires n <= |args|
    ensures LastPort(args, n, port) ==> ScanArgs(args, n).0 == port
    ensures LastUri(args, n, uri) ==> ScanArgs(args, n).1 == uri
  {
    if n > 0 {
      ScanFindsLast(args, n - 1, port, uri);
      var found := ScanArgs(args, n - 1);
      if LastPort(args, n, port) {
        ArgStepPort(args, n - 1, port, found);
      }
      if LastUri(args, n, uri) {
        ArgStepUri(args, n - 1, uri, found);
      }
    }
  }

  /** A monitor shows the last valid port flag and the last URI flag; with neither, the path and its arguments. */
  lemma MonitorShowsLastFlags(path: string, args: seq<string>, port: Port, uri: string)
    requires LastPort(args, |args|, port) && LastUri(args, |args|, uri)
    ensures MonitorOf(Some(RunAction(path, args)))
            == if port == 0 && uri == "" then Monitor(0, "", path, args) else Monitor(port, uri, "", [])
    ensures MonitorOf(None) == Monitor(0, "", "", [])
  {
    ScanFindsLast(args, |args|, port, uri);
  }

  /** Every printed duration ends in the unit s. */
  ghost predicate PrintsSeconds(durationText: int -> string) {
    forall d :: EndsInS(durationText(d))
  }

  predicate EndsInS(text: string) {
    text != "" && text[|text| - 1] == 's'
  }

  lemma PrintIsNoFlag(n: nat)
    ensures Print(n) != "-port" && Print(n) != "-uri"
  {
    PrintShape(n);
    assert DigitValue(Print(n)[0]) < 10;
    assert DigitValue('-') == 99;
  }

  lemma PlainStep(args: seq<string>, n: nat)
    requires n < |args| && (n + 1 == |args| || (args[n] != "-port" && args[n] != "-uri"))
    ensures ScanArgs(args, n + 1) == ScanArgs(args, n)
  {
  }

  lemma PortStep(args: seq<string>, n: nat, port: Port)
    requires n + 1 < |args| && args[n] == "-port" && ParseUint16(args[n + 1]) == Some(port)
    ensures ScanArgs(args, n + 1) == (port, ScanArgs(args, n).1)
  {
  }

  lemma UriStep(args: seq<string>, n: nat)
    requires n + 1 < |args| && args[n] == "-uri"
    ensures ScanArgs(args, n + 1) == (ScanArgs(args, n).0, args[n + 1])
  {
    assert "-uri"[1] != "-port"[1];
  }

  lemma EndsInSIsNoFlag(text: string)
    requires EndsInS(text)
    ensures text != "-port" && text != "-uri"
  {
    assert "-port"[4] == 't' && "-uri"[3] == 'i';
  }

  /** The timeout arguments leave nothing behind. */
  lemma ScanTimeout(timeoutArgs: seq<string>, rest: seq<string>)
    requires timeoutArgs == [] || (|timeoutArgs| == 2 && timeoutArgs[0] == "-timeout" && EndsInS(timeoutArgs[1]))
    requires rest != []
    ensures ScanArgs(timeoutArgs + rest, |timeoutArgs|) == (0, "")
  {
    var args := timeoutArgs + rest;
    if timeoutArgs != [] {
      assert "-timeout"[1] != "-port"[1] && "-timeout"[1] != "-uri"[1];
      EndsInSIsNoFlag(timeoutArgs[1]);
      PlainStep(args, 0);
      PlainStep(args, 1);
    }
  }

  lemma ScanPort(front: seq<string>, number: string, port: Port)
    requires ParseUint16(number) == Some(port)
    requires ScanArgs(front + ["-port", number], |front|) == (0, "")
    ensures ScanArgs(front + ["-port", number], |front| + 2) == (port, "")
  {
    var args, n := front + ["-port", number], |front|;
    PortStep(args, n, port);
    PlainStep(args, n + 1);
  }

  lemma ScanUrl(args: seq<string>, n: nat, port: Port)
    requires |args| == n + 4 && args[n] == "-port" && args[n + 2] == "-uri"
    requires ParseUint16(args[n + 1]) == Some(port) && args[n + 1] != "-port" && args[n + 1] != "-uri"
    requires ScanArgs(args, n) == (0, "")
    ensures ScanArgs(args, n + 4) == (port, args[n + 3])
  {
    PortStep(args, n, port);
    PlainStep(args, n + 1);
    UriStep(args, n + 2);
    PlainStep(args, n + 3);
  }

  lemma PortRoundTrip(timeoutArgs: seq<string>, port: Port)
    requires timeoutArgs == [] || (|timeoutArgs| == 2 && timeoutArgs[0] == "-timeout" && EndsInS(timeoutArgs[1]))
    ensures var args := timeoutArgs + ["-port", Print(port)];
            ScanArgs(args, |args|) == (port, "")
  {
    var number := Print(port);
    ScanTimeout(timeoutArgs, ["-port", number]);
    PrintParse(port);
    ScanPort(timeoutArgs, number, port);
  }

  lemma UrlRoundTrip(timeoutArgs: seq<string>, port: Port, uri: string)
    requires timeoutArgs == [] || (|timeoutArgs| == 2 && timeoutArgs[0] == "-timeout" && EndsInS(timeoutArgs[1]))
    ensures var args := timeoutArgs + ["-port", Print(port), "-uri", uri];
            ScanArgs(args, |args|) == (port, uri)
  {
    var number := Print(port);
    ScanTimeout(timeoutArgs, ["-port", number, "-uri", uri]);
    PrintParse(port);
    PrintIsNoFlag(port);
    ScanUrl(timeoutArgs + ["-port", number, "-uri", uri], |timeoutArgs|, port);
  }

  lemma CommandRoundTrip(command: string)
    ensures ScanArgs(["-c", command], 2) == (0, "")
  {
    assert "-c"[1] != "-port"[1] && "-c"[1] != "-uri"[1];
    PlainStep(["-c", command], 0);
    PlainStep(["-c", command], 1);
  }

  /**
   What parseMonitor makes of the action that desireLrp writes, for every configuration: ports and
   URIs come back unless both are zero, custom commands always do.
   */
  lemma MonitorRoundTrip(config: MonitorConfig, durationText: int -> string)
    requires PrintsSeconds(durationText)
    ensures var monitor := MonitorOf(MonitorAction(config, durationText));
            match config.kind
            case NoMonitor => monitor == EMPTY_MONITOR
            case PortMonitor => config.port != 0 <==> monitor == Monitor(config.port, "", "", [])
            case UrlMonitor =>
              config.port != 0 || config.uri != "" <==> monitor == Monitor(config.port, config.uri, "", [])
            case CustomMonitor => monitor == Monitor(0, "", "/bin/sh", ["-c", config.customCommand])
  {
    var timeoutArgs := TimeoutArgs(config.timeout, durationText);
    match config.kind
    case NoMonitor =>
    case PortMonitor => PortRoundTrip(timeoutArgs, config.port);
    case UrlMonitor => UrlRoundTrip(timeoutArgs, config.port, config.uri);
    case CustomMonitor => CommandRoundTrip(config.customCommand);
  }

  // ---------- choosing the configuration ----------

  datatype ConfigResult = Config(config: MonitorConfig) | InvalidPort | PortNotExposed | IndexPanic

  /** uint16(n): conversion keeps the low 16 bits. */
  function Uint16(n: int): Port {
    n % 0x1_0000
  }

  function MinPort(ports: seq<Port>): (least: Port)
    requires ports != []
    ensures least in ports && forall port :: port in ports ==> least <= port
  {
    if |ports| == 1 then ports[0]
    else
      var rest := MinPort(ports[1..]);
      assert forall port :: port in ports <==> port == ports[0] || port in ports[1..];
      if ports[0] < rest then ports[0] else rest
  }

  function UrlConfig(exposed: seq<Port>, url: string, timeout: int): ConfigResult {
    var parts := Split(url, ':');
    if |parts| != 2 then InvalidPort
    else match Atoi(parts[0])
      case None => InvalidPort
      case Some(n) =>
        if Uint16(n) in exposed then Config(MonitorConfig(UrlMonitor, Uint16(n), parts[1], timeout, ""))
        else PortNotExposed
  }

  /** What GetMonitorConfig answers. */
  function ConfigFor(exposed: seq<Port>, portFlag: int, noMonitor: bool, url: string, command: string,
                     timeout: int): ConfigResult {
    if noMonitor then Config(MonitorConfig(NoMonitor, 0, "", 0, ""))
    else if command != "" then Config(MonitorConfig(CustomMonitor, 0, "", 0, command))
    else if url != "" then UrlConfig(exposed, url, timeout)
    else if exposed == [] then IndexPanic
    else
      var port := if portFlag > 0 then Uint16(portFlag) else MinPort(exposed);
      if port in exposed then Config(MonitorConfig(PortMonitor, port, "", timeout, "")) else PortNotExposed
  }

  // ---------- what the flags choose ----------

  /** --no-monitor wins over everything, a command over the other two; neither takes the timeout. */
  lemma NoMonitorThenCommand(exposed: seq<Port>, portFlag: int, url: string, command: string, timeout: int)
    ensures ConfigFor(exposed, portFlag, true, url, command, timeout)
            == Config(MonitorConfig(NoMonitor, 0, "", 0, ""))
    ensures command != "" ==>
              ConfigFor(exposed, portFlag, false, url, command, timeout)
              == Config(MonitorConfig(CustomMonitor, 0, "", 0, command))
  {
  }

  /** A URL wins over a port. Around its one colon stand the port, cut to 16 bits, and the URI. */
  lemma UrlDecides(exposed: seq<Port>, portFlag: int, number: string, uri: string, timeout: int)
    requires ':' !in number && ':' !in uri
    ensures var r := ConfigFor(exposed, portFlag, false, number + ":" + uri, "", timeout);
            match Atoi(number)
            case None => r == InvalidPort
            case Some(n) =>
              r == if n % 65536 in exposed then Config(MonitorConfig(UrlMonitor, n % 65536, uri, timeout, ""))
                   else PortNotExposed
  {
    SplitConcat(number, ':', uri);
    SplitWhole(number, ':');
    SplitWhole(uri, ':');
    assert number + [':'] + uri == number + ":" + uri;
    assert (number + ":" + uri)[|number|] == ':';
  }

  lemma DigitsWithoutColon(n: nat)
    ensures ':' !in Print(n) && ':' !in "-" + Print(n)
  {
    var digits := Print(n);
    PrintShape(n);
    assert DigitValue(':') == 99;
    forall i | 0 <= i < |digits| ensures digits[i] != ':' {
      assert DigitValue(digits[i]) < 10;
    }
  }

  /** A printed 64-bit number, of either sign, is read as that number. */
  lemma PrintedUrlDecides(exposed: seq<Port>, portFlag: int, n: nat, uri: string, timeout: int)
    requires ':' !in uri && n <= 9_223_372_036_854_775_807
    ensures ConfigFor(exposed, portFlag, false, Print(n) + ":" + uri, "", timeout)
            == if n % 65536 in exposed then Config(MonitorConfig(UrlMonitor, n % 65536, uri, timeout, ""))
               else PortNotExposed
    ensures ConfigFor(exposed, portFlag, false, "-" + Print(n) + ":" + uri, "", timeout)
            == if (0 - n) % 65536 in exposed then Config(MonitorConfig(UrlMonitor, (0 - n) % 65536, uri, timeout, ""))
               else PortNotExposed
  {
    AtoiPrinted(n);
    DigitsWithoutColon(n);
    UrlDecides(exposed, portFlag, Print(n), uri, timeout);
    UrlDecides(exposed, portFlag, "-" + Print(n), uri, timeout);
  }

  /** A URL without a colon, or with more than one, is refused. */
  lemma UrlNeedsOneColon(exposed: seq<Port>, portFlag: int, a: string, b: string, c: string, timeout: int)
    ensures ':' !in a && a != "" ==> ConfigFor(exposed, portFlag, false, a, "", timeout) == InvalidPort
    ensures ConfigFor(exposed, portFlag, false, a + ":" + b + ":" + c, "", timeout) == InvalidPort
  {
    var url := a + ":" + b + ":" + c;
    assert url[|a|] == ':';
    assert url == a + [':'] + (b + [':'] + c);
    SplitConcat(a, ':', b + [':'] + c);
    SplitConcat(b, ':', c);
    if ':' !in a {
      SplitWhole(a, ':');
    }
  }

  /** A port flag decides when no other flag is set: it is cut to 16 bits and must be exposed. */
  lemma PortFlagDecides(exposed: seq<Port>, portFlag: int, timeout: int)
    requires exposed != [] && portFlag > 0
    ensures ConfigFor(exposed, portFlag, false, "", "", timeout)
            == if portFlag % 65536 in exposed then Config(MonitorConfig(PortMonitor, portFlag % 65536, "", timeout, ""))
               else PortNotExposed
  {
  }

  /** With no flag set the least exposed port is monitored. */
  lemma LeastPortByDefault(exposed: seq<Port>, portFlag: int, least: Port, timeout: int)
    requires portFlag <= 0 && least in exposed && forall port :: port in exposed ==> least <= port
    ensures ConfigFor(exposed, portFlag, false, "", "", timeout)
            == Config(MonitorConfig(PortMonitor, least, "", timeout, ""))
  {
    assert MinPort(exposed) == least;
  }

  /** checkPortExposed */
  method CheckPortExposed(exposed: seq<Port>, port: Port) returns (ok: bool)
    ensures ok <==> port in exposed
  {
    for i := 0 to |exposed|
      invariant port !in exposed[..i]
    {
      if exposed[i] == port {
        return true;
      }
    }
    return false;
  }

  /** GetMonitorConfig */
  method GetMonitorConfig(exposed: seq<Port>, portFlag: int, noMonitor: bool, url: string, command: string,
                          timeout: int)
    returns (r: ConfigResult)
    ensures r == ConfigFor(exposed, portFlag, noMonitor, url, command, timeout)
  {
    if noMonitor {
      return Config(MonitorConfig(NoMonitor, 0, "", 0, ""));
    }
    if command != "" {
      return Config(MonitorConfig(CustomMonitor, 0, "", 0, command));
    }
    if url != "" {
      var parts := Split(url, ':');
      if |parts| != 2 {
        return InvalidPort;
      }
      var port := Atoi(parts[0]);
      if port.None? {
        return InvalidPort;
      }
      var urlExposed := CheckPortExposed(exposed, Uint16(port.value));
      return if urlExposed then Config(MonitorConfig(UrlMonitor, Uint16(port.value), parts[1], timeout, ""))
          else PortNotExposed;
    }
    var le := (a: Port, b: Port) => a <= b;
    var sortedPorts := Sort(exposed, le);
    assert |sortedPorts| == |multiset(sortedPorts)| == |exposed|;
    if sortedPorts == [] {
      return IndexPanic;
    }
    SortedHeadIsMin(sortedPorts, exposed, le);
    var monitorPort := sortedPorts[0];
    if portFlag > 0 {
      monitorPort := Uint16(portFlag);
    }
    var isExposed := CheckPortExposed(exposed, monitorPort);
    return if isExposed then Config(MonitorConfig(PortMonitor, monitorPort, "", timeout, "")) else PortNotExposed;
  }

  lemma SortedHeadIsMin(sorted: seq<Port>, ports: seq<Port>, le: (Port, Port) -> bool)
    requires sorted != [] && ports != [] && Sorted(sorted, le) && multiset(sorted) == multiset(ports)
    requires forall a: Port, b: Port :: le(a, b) <==> a <= b
    ensures sorted[0] == MinPort(ports)
  {
    var least := MinPort(ports);
    assert sorted[0] in multiset(sorted) && sorted[0] in multiset(ports) && sorted[0] in ports;
    assert least in multiset(ports) && least in multiset(sorted) && least in sorted;
    var i :| 0 <= i < |sorted| && sorted[i] == least;
    assert i > 0 ==> le(sorted[0], sorted[i]);
  }

  // ---------- primary port and default routes ----------

  /** GetPrimaryPort */
  method GetPrimaryPort(monitorPort: Port, exposed: seq<Port>) returns (primary: Port)
    ensures primary == PrimaryPort(monitorPort, exposed)
  {
    primary := 0;
    if monitorPort != 0 {
      primary := monitorPort;
    } else if |exposed| > 0 {
      primary := exposed[0];
    }
  }

  function PrimaryPort(monitorPort: Port, exposed: seq<Port>): Port {
    if monitorPort != 0 then monitorPort else if exposed != [] then exposed[0] else 0
  }

  /** The host names of one default route. */
  function DefaultHosts(app: string, port: Port, primary: Port, domain: string): seq<string> {
    (if port == primary then [app + "." + domain] else []) + [app + "-" + Print(port) + "." + domain]
  }

  ghost predicate IsDefaultRouting(routes: seq<AppRoute>, app: string, exposed: seq<Port>, primary: Port,
                                   domain: string) {
    && |routes| == |exposed|
    && forall i :: 0 <= i < |routes| ==>
         routes[i] == AppRoute(DefaultHosts(app, exposed[i], primary, domain), exposed[i])
  }

  /** BuildDefaultRoutingInfo */
  method BuildDefaultRoutingInfo(app: string, exposed: seq<Port>, primary: Port, domain: string)
    returns (routes: seq<AppRoute>)
    ensures IsDefaultRouting(routes, app, exposed, primary, domain)
  {
    routes := [];
    for i := 0 to |exposed|
      invariant IsDefaultRouting(routes, app, exposed[..i], primary, domain)
    {
      var hostnames: seq<string> := [];
      if exposed[i] == primary {
        hostnames := hostnames + [app + "." + domain];
      }
      hostnames := hostnames + [app + "-" + Print(exposed[i]) + "." + domain];
      routes := routes + [AppRoute(hostnames, exposed[i])];
    }
    assert exposed[..|exposed|] == exposed;
  }

  lemma EmptyGrouping(routes: seq<AppRoute>, overrides: seq<RouteOverride>, domain: string)
    requires IsGrouping(routes, overrides, domain)
    ensures routes == [] <==> overrides == []
  {
    if overrides != [] {
      assert overrides[0].port in OverridePorts(overrides);
    }
    assert routes != [] ==> routes[0].port in OverridePorts(overrides);
  }

  /** buildRoutesWithDefaults */
  method BuildRoutesWithDefaults(app: string, noRoutes: bool, overrides: seq<RouteOverride>, tcpRoutes: seq<TcpRoute>,
                                 exposed: seq<Port>, primary: Port, domain: string) returns (routes: Routes)
    ensures noRoutes ==> routes == Routes([], [])
    ensures !noRoutes && (overrides != [] || tcpRoutes != []) ==>
              IsGrouping(routes.appRoutes, overrides, domain) && routes.tcpRoutes == tcpRoutes
    ensures !noRoutes && overrides == [] && tcpRoutes == [] ==>
              IsDefaultRouting(routes.appRoutes, app, exposed, primary, domain) && routes.tcpRoutes == []
  {
    routes := BuildRoutes(noRoutes, overrides, tcpRoutes, domain);
    if !noRoutes {
      EmptyGrouping(routes.appRoutes, overrides, domain);
    }
    if routes.appRoutes == [] && routes.tcpRoutes == [] && !noRoutes {
      var appRoutes := BuildDefaultRoutingInfo(app, exposed, primary, domain);
      routes := routes.(appRoutes := appRoutes);
    }
  }

  /**
   For exposed ports and any configuration accepted without error, the primary port is exposed, so
   default routing gives one route per exposed port and the bare host exactly on the primary ones.
   */
  lemma PrimaryPortChain(exposed: seq<Port>, portFlag: int, noMonitor: bool, url: string, command: string, timeout: int,
                         app: string, domain: string, routes: seq<AppRoute>)
    requires exposed != [] && ConfigFor(exposed, portFlag, noMonitor, url, command, timeout).Config?
    requires var config := ConfigFor(exposed, portFlag, noMonitor, url, command, timeout).config;
             IsDefaultRouting(routes, app, exposed, PrimaryPort(config.port, exposed), domain)
    ensures var config := ConfigFor(exposed, portFlag, noMonitor, url, command, timeout).config;
            var primary := PrimaryPort(config.port, exposed);
            && primary in exposed
            && |routes| == |exposed|
            && (exists i :: 0 <= i < |routes| && routes[i].port == primary && app + "." + domain in routes[i].hostnames)
            && (forall i :: 0 <= i < |routes| && app + "." + domain in routes[i].hostnames ==>
                  routes[i].port == primary)
  {
    var primary := PrimaryPort(ConfigFor(exposed, portFlag, noMonitor, url, command, timeout).config.port, exposed);
    assert primary in exposed;
    var k :| 0 <= k < |exposed| && exposed[k] == primary;
    assert routes[k].hostnames[0] == app + "." + domain;
    forall i | 0 <= i < |routes| && app + "." + domain in routes[i].hostnames ensures routes[i].port == primary {
      BareHostDiffers(app, exposed[i], domain);
    }
  }

  /**
   The hosts of default routing: each exposed port has its numbered host, and the bare host stands before it
   exactly on the monitored port, or on the first exposed one when none is monitored.
   */
  lemma DefaultHostsByPort(routes: seq<AppRoute>, app: string, exposed: seq<Port>, monitorPort: Port, domain: string,
                           i: nat)
    requires IsDefaultRouting(routes, app, exposed, PrimaryPort(monitorPort, exposed), domain) && i < |exposed|
    ensures var bare, numbered := app + "." + domain, app + "-" + Print(exposed[i]) + "." + domain;
            && |routes| == |exposed| && routes[i].port == exposed[i] && bare != numbered
            && (monitorPort != 0 ==>
                  routes[i].hostnames == if exposed[i] == monitorPort then [bare, numbered] else [numbered])
            && (monitorPort == 0 ==>
                  routes[i].hostnames == if exposed[i] == exposed[0] then [bare, numbered] else [numbered])
  {
    BareHostDiffers(app, exposed[i], domain);
  }

  /** The numbered host of a port is never the bare host. */
  lemma BareHostDiffers(app: string, port: Port, domain: string)
    ensures app + "-" + Print(port) + "." + domain != app + "." + domain
  {
    assert |app + "-" + Print(port) + "." + domain| > |app + "." + domain|;
  }

  /** GetMonitorConfig panics exactly when it must choose a port and none is exposed. */
  lemma PanicsExactlyWithoutPorts(exposed: seq<Port>, portFlag: int, noMonitor: bool, url: string, command: string,
                                  timeout: int)
    ensures ConfigFor(exposed, portFlag, noMonitor, url, command, timeout).IndexPanic?
            <==> exposed == [] && !noMonitor && url == "" && command == ""
  {
  }

  /**
   From the flags to the status screen: an accepted port or URL monitor is shown with its own exposed
   port and URI if and only if one of the two is not zero; an accepted command always is.
   */
  lemma AcceptedMonitorIsShown(exposed: seq<Port>, portFlag: int, noMonitor: bool, url: string, command: string,
                               timeout: int, durationText: int -> string)
    requires PrintsSeconds(durationText)
    requires ConfigFor(exposed, portFlag, noMonitor, url, command, timeout).Config?
    ensures var config := ConfigFor(exposed, portFlag, noMonitor, url, command, timeout).config;
            var monitor := MonitorOf(MonitorAction(config, durationText));
            && (config.kind.PortMonitor? || config.kind.UrlMonitor? ==>
                  && config.port in exposed
                  && (monitor == Monitor(config.port, config.uri, "", []) <==> config.port != 0 || config.uri != ""))
            && (config.kind.CustomMonitor? ==> monitor == Monitor(0, "", "/bin/sh", ["-c", command]))
  {
    MonitorRoundTrip(ConfigFor(exposed, portFlag, noMonitor, url, command, timeout).config, durationText);
  }
}

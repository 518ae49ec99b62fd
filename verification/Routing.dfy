/**
 Routes of an app: built by app_runner.go, grouped by route_helpers.go, and shown twice by
 app_examiner_command_factory.go, in the list and on the status screen.
 */
module Routing {
  import opened Text
  import opened Sorting

  type Port = p: int | 0 <= p < 0x1_0000 witness 0

  datatype AppRoute = AppRoute(hostnames: seq<string>, port: Port)

  datatype TcpRoute = TcpRoute(externalPort: Port, port: Port)

  datatype RouteOverride = RouteOverride(hostnamePrefix: string, port: Port)

  datatype Routes = Routes(appRoutes: seq<AppRoute>, tcpRoutes: seq<TcpRoute>)

  /** One route as a view shows it. */
  datatype Entry = Http(host: string, port: Port) | Tcp(domain: string, externalPort: Port, port: Port)

  // ---------- appendDomain ----------

  /** The text before the first slash. */
  function FirstSegment(s: string): string {
    Split(s, '/')[0]
  }

  /** appendDomain: a first segment without a dot gets the domain appended. */
  function AppendDomain(prefix: string, domain: string): string {
    var split := Split(prefix, '/');
    Join(if '.' in split[0] then split else [split[0] + "." + domain] + split[1..], '/')
  }

  lemma SplitFirst(s: string)
    ensures FirstSegment(s) <= s
    ensures '/' !in FirstSegment(s)
    ensures |FirstSegment(s)| < |s| ==> s[|FirstSegment(s)|] == '/'
  {
    if s != "" && s[0] != '/' {
      SplitFirst(s[1..]);
      assert s == [s[0]] + s[1..];
    }
  }

  /** Only the first segment changes: everything from the first slash on is kept. */
  lemma AppendDomainShape(prefix: string, domain: string)
    ensures var first := FirstSegment(prefix);
            first <= prefix && '/' !in first
            && AppendDomain(prefix, domain)
                == (if '.' in first then first else first + "." + domain) + prefix[|first|..]
  {
    var split := Split(prefix, '/');
    var first := split[0];
    JoinSplit(prefix, '/');
    SplitFirst(prefix);
    var head := if '.' in first then first else first + "." + domain;
    if |split| == 1 {
      assert prefix == first;
    } else {
      var rest := split[1..];
      assert prefix == first + "/" + Join(rest, '/');
      assert prefix[|first|..] == "/" + Join(rest, '/');
      assert ([head] + rest)[1..] == rest;
      assert split == [first] + rest;
    }
  }

  /** Completing a host name twice is completing it once. */
  lemma AppendDomainIdempotent(prefix: string, domain: string)
    ensures AppendDomain(AppendDomain(prefix, domain), domain) == AppendDomain(prefix, domain)
  {
    var first := FirstSegment(prefix);
    var once := AppendDomain(prefix, domain);
    AppendDomainShape(prefix, domain);
    AppendDomainShape(once, domain);
    SplitFirst(prefix);
    SplitFirst(once);
    if '.' in first {
      assert first + prefix[|first|..] == prefix;
    } else {
      var dotted := first + ".";
      assert once == dotted + (domain + prefix[|first|..]);
      var f := FirstSegment(once);
      forall i | 0 <= i <= |first| ensures once[i] == dotted[i] != '/' {
        assert i < |first| ==> first[i] in first;
      }
      assert f[|first|] == once[|first|] == '.';
      assert f + once[|f|..] == once;
    }
  }

  // ---------- buildRoutes ----------

  /** The completed hosts of the overrides with a port, in order. */
  function HostsFor(overrides: seq<RouteOverride>, port: Port, domain: string): seq<string> {
    if overrides == [] then []
    else
      var last := overrides[|overrides| - 1];
      HostsFor(overrides[..|overrides| - 1], port, domain)
      + if last.port == port then [AppendDomain(last.hostnamePrefix, domain)] else []
  }

  function OverridePorts(overrides: seq<RouteOverride>): set<Port> {
    set override | override in overrides :: override.port
  }

  ghost predicate UniquePorts(routes: seq<AppRoute>) {
    forall i, j :: 0 <= i < j < |routes| ==> routes[i].port != routes[j].port
  }

  /** One route per overridden port, in any order, each with that port's hosts in order. */
  ghost predicate IsGrouping(routes: seq<AppRoute>, overrides: seq<RouteOverride>, domain: string) {
    && UniquePorts(routes)
    && (forall port :: port in OverridePorts(overrides) <==> exists i :: 0 <= i < |routes| && routes[i].port == port)
    && (forall i :: 0 <= i < |routes| ==> routes[i].hostnames == HostsFor(overrides, routes[i].port, domain))
  }

  lemma {:induction false} NoHosts(overrides: seq<RouteOverride>, port: Port, domain: string)
    requires port !in OverridePorts(overrides)
    ensures HostsFor(overrides, port, domain) == []
  {
    if overrides != [] {
      var n := |overrides| - 1;
      assert overrides[n] in overrides;
      NoHosts(overrides[..n], port, domain);
    }
  }

  lemma HostsSnoc(overrides: seq<RouteOverride>, last: RouteOverride, port: Port, domain: string)
    ensures HostsFor(overrides + [last], port, domain)
            == HostsFor(overrides, port, domain)
               + if last.port == port then [AppendDomain(last.hostnamePrefix, domain)] else []
    ensures OverridePorts(overrides + [last]) == OverridePorts(overrides) + {last.port}
  {
    assert (overrides + [last])[..|overrides|] == overrides;
    assert forall x :: x in overrides + [last] <==> x in overrides || x == last;
    assert last in overrides + [last];
  }

  /** One override of the grouping loop of buildRoutes. */
  method AddOverride(routeMap: map<Port, seq<string>>, override: RouteOverride, domain: string,
                     ghost overrides: seq<RouteOverride>)
    returns (r: map<Port, seq<string>>)
    requires routeMap.Keys == OverridePorts(overrides)
    requires forall port :: port in routeMap ==> routeMap[port] == HostsFor(overrides, port, domain)
    ensures r.Keys == OverridePorts(overrides + [override])
    ensures forall port :: port in r ==> r[port] == HostsFor(overrides + [override], port, domain)
  {
    var sofar := if override.port in routeMap then routeMap[override.port] else [];
    r := routeMap[override.port := sofar + [AppendDomain(override.hostnamePrefix, domain)]];
    if override.port !in routeMap {
      NoHosts(overrides, override.port, domain);
    }
    HostsSnoc(overrides, override, override.port, domain);
    forall port | port in r ensures r[port] == HostsFor(overrides + [override], port, domain) {
      HostsSnoc(overrides, override, port, domain);
    }
  }

  /** The grouping loop of buildRoutes. */
  method GroupOverrides(overrides: seq<RouteOverride>, domain: string) returns (routeMap: map<Port, seq<string>>)
    ensures routeMap.Keys == OverridePorts(overrides)
    ensures forall port :: port in routeMap ==> routeMap[port] == HostsFor(overrides, port, domain)
  {
    routeMap := map[];
    for i := 0 to |overrides|
      invariant routeMap.Keys == OverridePorts(overrides[..i])
      invariant forall port :: port in routeMap ==> routeMap[port] == HostsFor(overrides[..i], port, domain)
    {
      assert overrides[..i + 1] == overrides[..i] + [overrides[i]];
      routeMap := AddOverride(routeMap, overrides[i], domain, overrides[..i]);
    }
    assert overrides[..|overrides|] == overrides;
  }

  /** buildRoutes */
  method BuildRoutes(noRoutes: bool, overrides: seq<RouteOverride>, tcpRoutes: seq<TcpRoute>, domain: string)
    returns (routes: Routes)
    ensures noRoutes ==> routes == Routes([], [])
    ensures !noRoutes ==> IsGrouping(routes.appRoutes, overrides, domain) && routes.tcpRoutes == tcpRoutes
  {
    if noRoutes {
      return Routes([], []);
    }
    var appRoutes: seq<AppRoute> := [];
    if overrides != [] {
      var routeMap := GroupOverrides(overrides, domain);
      var ports := Keys(routeMap.Keys);
      SetOrder(ports, routeMap.Keys);
      for i := 0 to |ports|
        invariant |appRoutes| == i
        invariant forall j :: 0 <= j < i ==>
                    appRoutes[j].port == ports[j] && appRoutes[j].hostnames == HostsFor(overrides, ports[j], domain)
      {
        assert ports[i] in ports;
        appRoutes := appRoutes + [AppRoute(routeMap[ports[i]], ports[i])];
      }
      forall port
        ensures port in OverridePorts(overrides) <==> exists i :: 0 <= i < |appRoutes| && appRoutes[i].port == port
      {
        if port in ports {
          var i :| 0 <= i < |ports| && ports[i] == port;
          assert appRoutes[i].port == port;
        }
      }
    }
    var appTcpRoutes: seq<TcpRoute> := [];
    for i := 0 to |tcpRoutes|
      invariant appTcpRoutes == tcpRoutes[..i]
    {
      appTcpRoutes := appTcpRoutes + [TcpRoute(tcpRoutes[i].externalPort, tcpRoutes[i].port)];
    }
    routes := Routes(appRoutes, appTcpRoutes);
  }

  // ---------- HostnamesByPort ----------

  /** The host names of the last route with a port; none when there is no such route. */
  function LastHosts(routes: seq<AppRoute>, port: Port): seq<string> {
    if routes == [] then []
    else if routes[|routes| - 1].port == port then routes[|routes| - 1].hostnames
    else LastHosts(routes[..|routes| - 1], port)
  }

  function Occurrences(routes: seq<AppRoute>, port: Port): nat {
    if routes == [] then 0
    else Occurrences(routes[..|routes| - 1], port) + if routes[|routes| - 1].port == port then 1 else 0
  }

  /** HostnamesByPort: later routes replace earlier ones with the same port. */
  method HostnamesByPort(routes: seq<AppRoute>) returns (byPort: map<Port, seq<string>>)
    ensures forall port :: port in byPort <==> Occurrences(routes, port) > 0
    ensures forall port :: port in byPort ==> byPort[port] == LastHosts(routes, port)
  {
    byPort := map[];
    for i := 0 to |routes|
      invariant forall port :: port in byPort <==> Occurrences(routes[..i], port) > 0
      invariant forall port :: port in byPort ==> byPort[port] == LastHosts(routes[..i], port)
    {
      assert routes[..i + 1][..i] == routes[..i];
      byPort := byPort[routes[i].port := routes[i].hostnames];
    }
    assert routes[..|routes|] == routes;
  }

  lemma {:induction false} LastHostsAt(routes: seq<AppRoute>, i: nat)
    requires UniquePorts(routes) && i < |routes|
    ensures LastHosts(routes, routes[i].port) == routes[i].hostnames && Occurrences(routes, routes[i].port) == 1
  {
    var n := |routes| - 1;
    if i == n {
      NoOccurrence(routes[..n], routes[n].port);
    } else {
      LastHostsAt(routes[..n], i);
    }
  }

  lemma {:induction false} NoOccurrence(routes: seq<AppRoute>, port: Port)
    ensures (forall i :: 0 <= i < |routes| ==> routes[i].port != port) <==> Occurrences(routes, port) == 0
    ensures Occurrences(routes, port) == 0 ==> LastHosts(routes, port) == []
  {
    if routes != [] {
      var n := |routes| - 1;
      NoOccurrence(routes[..n], port);
      assert forall i :: 0 <= i < n ==> routes[..n][i] == routes[i];
    }
  }

  /** Grouping loses nothing, whatever the map order: each port's hosts come back in order, and each port once. */
  lemma GroupingLossless(routes: seq<AppRoute>, overrides: seq<RouteOverride>, domain: string, port: Port)
    requires IsGrouping(routes, overrides, domain)
    ensures LastHosts(routes, port) == HostsFor(overrides, port, domain)
    ensures Occurrences(routes, port) == if port in OverridePorts(overrides) then 1 else 0
  {
    if port in OverridePorts(overrides) {
      var i :| 0 <= i < |routes| && routes[i].port == port;
      LastHostsAt(routes, i);
    } else {
      NoOccurrence(routes, port);
      NoHosts(overrides, port, domain);
    }
  }

  // ---------- the two views ----------

  function HttpEntries(hosts: seq<string>, port: Port): (r: seq<Entry>)
    ensures |r| == |hosts| && forall i :: 0 <= i < |hosts| ==> r[i] == Http(hosts[i], port)
  {
    seq(|hosts|, i requires 0 <= i < |hosts| => Http(hosts[i], port))
  }

  /** The HTTP entries of the list view: per route, the hosts that HostnamesByPort has for its port. */
  function ListHttp(some: seq<AppRoute>, all: seq<AppRoute>, ports: set<Port>): seq<Entry> {
    if some == [] then []
    else
      var port := some[|some| - 1].port;
      ListHttp(some[..|some| - 1], all, ports) + if port in ports then HttpEntries(LastHosts(all, port), port) else []
  }

  function ListTcp(tcpRoutes: seq<TcpRoute>, ports: set<Port>, domain: string): seq<Entry> {
    if tcpRoutes == [] then []
    else
      var last := tcpRoutes[|tcpRoutes| - 1];
      ListTcp(tcpRoutes[..|tcpRoutes| - 1], ports, domain)
      + if last.port in ports then [Tcp(domain, last.externalPort, last.port)] else []
  }

  function PortSet(ports: seq<Port>): set<Port> {
    set port | port in ports
  }

  /** The entries of the list view. */
  function ListEntries(ports: seq<Port>, routes: Routes, domain: string): seq<Entry> {
    ListHttp(routes.appRoutes, routes.appRoutes, PortSet(ports)) + ListTcp(routes.tcpRoutes, PortSet(ports), domain)
  }

  /** getRoutes, as the list of entries it writes. */
  method GetRoutes(ports: seq<Port>, routes: Routes, domain: string) returns (entries: seq<Entry>)
    ensures entries == ListEntries(ports, routes, domain)
  {
    var portSet := PortSet(ports);
    entries := [];
    var appRoutes := routes.appRoutes;
    var byPort := HostnamesByPort(appRoutes);
    for i := 0 to |appRoutes|
      invariant entries == ListHttp(appRoutes[..i], appRoutes, portSet)
    {
      assert appRoutes[..i + 1][..i] == appRoutes[..i];
      var port := appRoutes[i].port;
      NoOccurrence(appRoutes, port);
      if port in portSet {
        var hosts := byPort[port];
        ghost var before := entries;
        for k := 0 to |hosts|
          invariant entries == before + HttpEntries(hosts, port)[..k]
        {
          entries := entries + [Http(hosts[k], port)];
        }
      }
    }
    assert appRoutes[..|appRoutes|] == appRoutes;
    var tcpRoutes := routes.tcpRoutes;
    ghost var http := entries;
    for i := 0 to |tcpRoutes|
      invariant entries == http + ListTcp(tcpRoutes[..i], portSet, domain)
    {
      assert tcpRoutes[..i + 1][..i] == tcpRoutes[..i];
      if tcpRoutes[i].port in portSet {
        entries := entries + [Tcp(domain, tcpRoutes[i].externalPort, tcpRoutes[i].port)];
      }
    }
    assert tcpRoutes[..|tcpRoutes|] == tcpRoutes;
  }

  /** The external ports that lead to a container port, in order. */
  function ExternalPorts(tcpRoutes: seq<TcpRoute>, port: Port): seq<Port> {
    if tcpRoutes == [] then []
    else
      var last := tcpRoutes[|tcpRoutes| - 1];
      ExternalPorts(tcpRoutes[..|tcpRoutes| - 1], port) + if last.port == port then [last.externalPort] else []
  }

  function TcpEntries(externals: seq<Port>, port: Port, domain: string): (r: seq<Entry>)
    ensures |r| == |externals| && forall i :: 0 <= i < |externals| ==> r[i] == Tcp(domain, externals[i], port)
  {
    seq(|externals|, i requires 0 <= i < |externals| => Tcp(domain, externals[i], port))
  }

  /** The entries of the status view, port by port. */
  function StatusEntries(order: seq<Port>, routes: Routes, domain: string): seq<Entry> {
    if order == [] then []
    else
      var port := order[|order| - 1];
      StatusEntries(order[..|order| - 1], routes, domain)
      + HttpEntries(LastHosts(routes.appRoutes, port), port)
      + TcpEntries(ExternalPorts(routes.tcpRoutes, port), port, domain)
  }

  /** The app's ports, each once and ascending. */
  ghost predicate IsPortOrder(order: seq<Port>, ports: seq<Port>) {
    && (forall port :: port in order <==> port in ports)
    && (forall i, j :: 0 <= i < j < |order| ==> order[i] < order[j])
  }

  /** The grouping of external ports in printAppRoutes. */
  method GroupExternalPorts(tcpRoutes: seq<TcpRoute>, portSet: set<Port>) returns (grouped: map<Port, seq<Port>>)
    ensures forall port :: port in portSet ==> (port in grouped <==> ExternalPorts(tcpRoutes, port) != [])
    ensures forall port :: port in portSet && port in grouped ==> grouped[port] == ExternalPorts(tcpRoutes, port)
  {
    grouped := map[];
    for i := 0 to |tcpRoutes|
      invariant forall port :: port in portSet ==> (port in grouped <==> ExternalPorts(tcpRoutes[..i], port) != [])
      invariant forall port :: port in portSet && port in grouped ==>
                  grouped[port] == ExternalPorts(tcpRoutes[..i], port)
    {
      assert tcpRoutes[..i + 1][..i] == tcpRoutes[..i];
      var route := tcpRoutes[i];
      if route.port in portSet {
        if route.port in grouped {
          grouped := grouped[route.port := grouped[route.port] + [route.externalPort]];
        } else {
          grouped := grouped[route.port := [route.externalPort]];
        }
      }
    }
    assert tcpRoutes[..|tcpRoutes|] == tcpRoutes;
  }

  /** The app's port set, sorted. */
  method SortPorts(ports: seq<Port>) returns (order: seq<Port>)
    ensures IsPortOrder(order, ports)
  {
    var portSet := PortSet(ports);
    var le := (a: Port, b: Port) => a <= b;
    var keys := Keys(portSet);
    order := Sort(keys, le);
    SetOrder(order, portSet);
    assert forall i, j :: 0 <= i < j < |order| ==> le(order[i], order[j]);
  }

  /** The lines printed for one port: its host names, then its external ports. */
  method PortEntries(hosts: seq<string>, externals: seq<Port>, port: Port, domain: string) returns (entries: seq<Entry>)
    ensures entries == HttpEntries(hosts, port) + TcpEntries(externals, port, domain)
  {
    entries := [];
    for k := 0 to |hosts|
      invariant entries == HttpEntries(hosts, port)[..k]
    {
      entries := entries + [Http(hosts[k], port)];
    }
    ghost var http := entries;
    for k := 0 to |externals|
      invariant entries == http + TcpEntries(externals, port, domain)[..k]
    {
      entries := entries + [Tcp(domain, externals[k], port)];
    }
  }

  lemma StatusSnoc(order: seq<Port>, port: Port, routes: Routes, domain: string)
    ensures StatusEntries(order + [port], routes, domain)
            == StatusEntries(order, routes, domain)
               + (HttpEntries(LastHosts(routes.appRoutes, port), port)
                  + TcpEntries(ExternalPorts(routes.tcpRoutes, port), port, domain))
  {
    assert (order + [port])[..|order|] == order;
  }

  /** printAppRoutes, as the list of entries it writes. */
  method PrintAppRoutes(ports: seq<Port>, routes: Routes, domain: string)
    returns (entries: seq<Entry>, ghost order: seq<Port>)
    ensures IsPortOrder(order, ports)
    ensures entries == StatusEntries(order, routes, domain)
  {
    var byPort := HostnamesByPort(routes.appRoutes);
    var grouped := GroupExternalPorts(routes.tcpRoutes, PortSet(ports));
    var sorted := SortPorts(ports);
    order := sorted;
    entries := [];
    for i := 0 to |sorted|
      invariant entries == StatusEntries(sorted[..i], routes, domain)
    {
      var port := sorted[i];
      StatusSnoc(sorted[..i], port, routes, domain);
      assert sorted[..i + 1] == sorted[..i] + [port];
      assert port in sorted;
      NoOccurrence(routes.appRoutes, port);
      var more := PortEntries(if port in byPort then byPort[port] else [],
                              if port in grouped then grouped[port] else [], port, domain);
      entries := entries + more;
    }
    assert sorted[..|sorted|] == sorted;
  }

  // ---------- what the pieces of a view are, and their order ----------

  ghost predicate Ascending(at: seq<nat>) {
    forall i, j :: 0 <= i < j < |at| ==> at[i] < at[j]
  }

  /** The hosts of a port are its overrides, completed and in their order. */
  lemma {:induction false} HostsInOrder(overrides: seq<RouteOverride>, port: Port, domain: string)
    returns (at: seq<nat>)
    ensures Ascending(at) && forall k: nat :: k in at <==> k < |overrides| && overrides[k].port == port
    ensures |HostsFor(overrides, port, domain)| == |at|
    ensures forall i :: 0 <= i < |at| ==>
              at[i] < |overrides|
              && HostsFor(overrides, port, domain)[i] == AppendDomain(overrides[at[i]].hostnamePrefix, domain)
  {
    if overrides == [] {
      at := [];
    } else {
      var n := |overrides| - 1;
      var front := HostsInOrder(overrides[..n], port, domain);
      at := front + if overrides[n].port == port then [n] else [];
      assert forall k: nat :: k in at <==> k in front || (k == n && overrides[n].port == port);
    }
  }

  /** The external ports of a container port are its TCP routes, in their order. */
  lemma {:induction false} ExternalsInOrder(tcpRoutes: seq<TcpRoute>, port: Port) returns (at: seq<nat>)
    ensures Ascending(at) && forall k: nat :: k in at <==> k < |tcpRoutes| && tcpRoutes[k].port == port
    ensures |ExternalPorts(tcpRoutes, port)| == |at|
    ensures forall i :: 0 <= i < |at| ==>
              at[i] < |tcpRoutes| && ExternalPorts(tcpRoutes, port)[i] == tcpRoutes[at[i]].externalPort
  {
    if tcpRoutes == [] {
      at := [];
    } else {
      var n := |tcpRoutes| - 1;
      var front := ExternalsInOrder(tcpRoutes[..n], port);
      at := front + if tcpRoutes[n].port == port then [n] else [];
      assert forall k: nat :: k in at <==> k in front || (k == n && tcpRoutes[n].port == port);
    }
  }

  /** The hosts of a port are those of the last route with it, none without a route. */
  lemma {:induction false} LastHostsDecide(routes: seq<AppRoute>, port: Port)
    ensures forall k :: 0 <= k < |routes| && routes[k].port == port
                        && (forall l :: k < l < |routes| ==> routes[l].port != port) ==>
              LastHosts(routes, port) == routes[k].hostnames
    ensures (forall k :: 0 <= k < |routes| ==> routes[k].port != port) ==> LastHosts(routes, port) == []
  {
    if routes != [] {
      var n := |routes| - 1;
      LastHostsDecide(routes[..n], port);
      assert forall k :: 0 <= k < n ==> routes[..n][k] == routes[k];
    }
  }

  lemma {:induction false} ListHttpParts(some: seq<AppRoute>, all: seq<AppRoute>, ports: seq<Port>)
    returns (parts: seq<seq<Entry>>)
    ensures |parts| == |some| && ListHttp(some, all, PortSet(ports)) == Flatten(parts)
    ensures forall i :: 0 <= i < |some| ==>
              parts[i] == if some[i].port in ports then HttpEntries(LastHosts(all, some[i].port), some[i].port) else []
  {
    if some == [] {
      parts := [];
    } else {
      var n := |some| - 1;
      var front := ListHttpParts(some[..n], all, ports);
      var last := if some[n].port in ports then HttpEntries(LastHosts(all, some[n].port), some[n].port) else [];
      FlattenSnoc(front, last);
      parts := front + [last];
    }
  }

  lemma {:induction false} ListTcpParts(tcpRoutes: seq<TcpRoute>, ports: seq<Port>, domain: string)
    returns (parts: seq<seq<Entry>>)
    ensures |parts| == |tcpRoutes| && ListTcp(tcpRoutes, PortSet(ports), domain) == Flatten(parts)
    ensures forall i :: 0 <= i < |tcpRoutes| ==>
              parts[i] == if tcpRoutes[i].port in ports then [Tcp(domain, tcpRoutes[i].externalPort, tcpRoutes[i].port)]
                          else []
  {
    if tcpRoutes == [] {
      parts := [];
    } else {
      var n := |tcpRoutes| - 1;
      var front := ListTcpParts(tcpRoutes[..n], ports, domain);
      var route := tcpRoutes[n];
      var last := if route.port in ports then [Tcp(domain, route.externalPort, route.port)] else [];
      FlattenSnoc(front, last);
      parts := front + [last];
    }
  }

  /**
   The order of the list view: the HTTP routes one after the other, each with its port's hosts, then the TCP
   routes one after the other; routes on ports that the app does not have are left out.
   */
  lemma ListViewOrder(ports: seq<Port>, routes: Routes, domain: string)
    returns (http: seq<seq<Entry>>, tcp: seq<seq<Entry>>)
    ensures ListEntries(ports, routes, domain) == Flatten(http) + Flatten(tcp)
    ensures |http| == |routes.appRoutes| && |tcp| == |routes.tcpRoutes|
    ensures forall i :: 0 <= i < |http| ==>
              var port := routes.appRoutes[i].port;
              http[i] == if port in ports then HttpEntries(LastHosts(routes.appRoutes, port), port) else []
    ensures forall i :: 0 <= i < |tcp| ==>
              var route := routes.tcpRoutes[i];
              tcp[i] == if route.port in ports then [Tcp(domain, route.externalPort, route.port)] else []
  {
    http := ListHttpParts(routes.appRoutes, routes.appRoutes, ports);
    tcp := ListTcpParts(routes.tcpRoutes, ports, domain);
  }

  /** The order of the status view: port by port, the hosts of each before its external ports. */
  lemma {:induction false} StatusViewOrder(order: seq<Port>, routes: Routes, domain: string)
    returns (parts: seq<seq<Entry>>)
    ensures |parts| == |order| && StatusEntries(order, routes, domain) == Flatten(parts)
    ensures forall i :: 0 <= i < |order| ==>
              parts[i] == HttpEntries(LastHosts(routes.appRoutes, order[i]), order[i])
                          + TcpEntries(ExternalPorts(routes.tcpRoutes, order[i]), order[i], domain)
  {
    if order == [] {
      parts := [];
    } else {
      var n := |order| - 1;
      var front := StatusViewOrder(order[..n], routes, domain);
      var last := HttpEntries(LastHosts(routes.appRoutes, order[n]), order[n])
                  + TcpEntries(ExternalPorts(routes.tcpRoutes, order[n]), order[n], domain);
      FlattenSnoc(front, last);
      StatusSnoc(order[..n], order[n], routes, domain);
      assert order == order[..n] + [order[n]];
      parts := front + [last];
    }
  }

  // ---------- when the views agree ----------

  lemma {:induction false} HttpCount(hosts: seq<string>, port: Port, entry: Entry)
    ensures multiset(HttpEntries(hosts, port))[entry]
            == if entry.Http? && entry.port == port then multiset(hosts)[entry.host] else 0
  {
    var entries := HttpEntries(hosts, port);
    if hosts != [] {
      var n := |hosts| - 1;
      HttpCount(hosts[..n], port, entry);
      assert hosts == hosts[..n] + [hosts[n]];
      assert entries == HttpEntries(hosts[..n], port) + [Http(hosts[n], port)];
    }
  }

  lemma {:induction false} TcpCount(externals: seq<Port>, port: Port, domain: string, entry: Entry)
    ensures multiset(TcpEntries(externals, port, domain))[entry]
            == if entry.Tcp? && entry.domain == domain && entry.port == port
               then multiset(externals)[entry.externalPort] else 0
  {
    var entries := TcpEntries(externals, port, domain);
    if externals != [] {
      var n := |externals| - 1;
      TcpCount(externals[..n], port, domain, entry);
      assert externals == externals[..n] + [externals[n]];
      assert entries == TcpEntries(externals[..n], port, domain) + [Tcp(domain, externals[n], port)];
    }
  }

  /** What one entry's multiplicity should be: that of its host, or external port, among those of its port. */
  function RightCount(entry: Entry, routes: Routes, ports: set<Port>, domain: string): nat {
    if entry.port !in ports then 0
    else match entry
      case Http(host, port) => multiset(LastHosts(routes.appRoutes, port))[host]
      case Tcp(d, external, port) =>
        if d == domain then multiset(ExternalPorts(routes.tcpRoutes, port))[external] else 0
  }

  /** What the lines of one port add. */
  lemma PortCount(port: Port, routes: Routes, domain: string, entry: Entry)
    ensures multiset(HttpEntries(LastHosts(routes.appRoutes, port), port)
                     + TcpEntries(ExternalPorts(routes.tcpRoutes, port), port, domain))[entry]
            == if entry.port == port then RightCount(entry, routes, {port}, domain) else 0
  {
    HttpCount(LastHosts(routes.appRoutes, port), port, entry);
    TcpCount(ExternalPorts(routes.tcpRoutes, port), port, domain, entry);
  }

  lemma PortSetSnoc(order: seq<Port>, port: Port)
    ensures PortSet(order + [port]) == PortSet(order) + {port}
  {
  }

  /** The status view shows each entry the right number of times. */
  lemma {:induction false} StatusCount(order: seq<Port>, routes: Routes, domain: string, entry: Entry)
    requires forall i, j :: 0 <= i < j < |order| ==> order[i] < order[j]
    ensures multiset(StatusEntries(order, routes, domain))[entry] == RightCount(entry, routes, PortSet(order), domain)
  {
    if order != [] {
      var front, port := order[..|order| - 1], order[|order| - 1];
      assert order == front + [port];
      assert port !in PortSet(front);
      StatusCount(front, routes, domain, entry);
      StatusSnoc(front, port, routes, domain);
      PortCount(port, routes, domain, entry);
      PortSetSnoc(front, port);
    }
  }

  /** The list view shows a host once for every route with its port. */
  lemma {:induction false} ListHttpCount(some: seq<AppRoute>, all: seq<AppRoute>, ports: set<Port>, entry: Entry)
    ensures multiset(ListHttp(some, all, ports))[entry]
            == if entry.Http? && entry.port in ports
               then Occurrences(some, entry.port) * multiset(LastHosts(all, entry.port))[entry.host] else 0
  {
    if some != [] {
      var n := |some| - 1;
      var port := some[n].port;
      ListHttpCount(some[..n], all, ports, entry);
      HttpCount(LastHosts(all, port), port, entry);
      if entry.Http? {
        var count := multiset(LastHosts(all, entry.port))[entry.host];
        assert (Occurrences(some[..n], entry.port) + 1) * count == Occurrences(some[..n], entry.port) * count + count;
      }
    }
  }

  lemma {:induction false} ListTcpCount(tcpRoutes: seq<TcpRoute>, ports: set<Port>, domain: string, entry: Entry)
    ensures multiset(ListTcp(tcpRoutes, ports, domain))[entry]
            == if entry.Tcp? && entry.domain == domain && entry.port in ports
               then multiset(ExternalPorts(tcpRoutes, entry.port))[entry.externalPort] else 0
  {
    if tcpRoutes != [] {
      ListTcpCount(tcpRoutes[..|tcpRoutes| - 1], ports, domain, entry);
    }
  }

  /** No port of the app has two routes, unless the last of them names no host. */
  ghost predicate NoShownRepeat(ports: seq<Port>, appRoutes: seq<AppRoute>) {
    forall port :: port in ports ==> Occurrences(appRoutes, port) <= 1 || LastHosts(appRoutes, port) == []
  }

  lemma ListCount(ports: seq<Port>, routes: Routes, domain: string, entry: Entry)
    ensures multiset(ListEntries(ports, routes, domain))[entry]
            == (if entry.Http? then Occurrences(routes.appRoutes, entry.port) else 1)
               * RightCount(entry, routes, PortSet(ports), domain)
  {
    ListHttpCount(routes.appRoutes, routes.appRoutes, PortSet(ports), entry);
    ListTcpCount(routes.tcpRoutes, PortSet(ports), domain, entry);
  }

  /** Factor one changes nothing; neither does any factor of zero. */
  lemma SameProduct(n: nat, count: nat)
    ensures n * count == count <==> n == 1 || count == 0
  {
    if n >= 2 {
      assert n * count >= 2 * count;
    }
  }

  /** One entry has the same multiplicity in both views unless its port has several routes. */
  lemma EntryAgrees(ports: seq<Port>, order: seq<Port>, routes: Routes, domain: string, entry: Entry)
    requires IsPortOrder(order, ports)
    ensures var status := multiset(StatusEntries(order, routes, domain))[entry];
            && status == RightCount(entry, routes, PortSet(ports), domain)
            && (multiset(ListEntries(ports, routes, domain))[entry] == status
                <==> entry.Tcp? || Occurrences(routes.appRoutes, entry.port) == 1 || status == 0)
  {
    assert PortSet(order) == PortSet(ports);
    StatusCount(order, routes, domain, entry);
    ListCount(ports, routes, domain, entry);
    SameProduct(Occurrences(routes.appRoutes, entry.port), RightCount(entry, routes, PortSet(ports), domain));
  }

  lemma RepeatIsShown(ports: seq<Port>, order: seq<Port>, routes: Routes, domain: string)
    requires IsPortOrder(order, ports) && !NoShownRepeat(ports, routes.appRoutes)
    ensures multiset(ListEntries(ports, routes, domain)) != multiset(StatusEntries(order, routes, domain))
  {
    var port :| port in ports && Occurrences(routes.appRoutes, port) > 1 && LastHosts(routes.appRoutes, port) != [];
    var host := LastHosts(routes.appRoutes, port)[0];
    assert host in multiset(LastHosts(routes.appRoutes, port));
    EntryAgrees(ports, order, routes, domain, Http(host, port));
  }

  /**
   List and status view show the same routes unless a shown port has several routes, the last of which
   names a host.
   */
  lemma ViewsAgree(ports: seq<Port>, order: seq<Port>, routes: Routes, domain: string)
    requires IsPortOrder(order, ports)
    ensures multiset(ListEntries(ports, routes, domain)) == multiset(StatusEntries(order, routes, domain))
            <==> NoShownRepeat(ports, routes.appRoutes)
  {
    if NoShownRepeat(ports, routes.appRoutes) {
      var list, status := multiset(ListEntries(ports, routes, domain)), multiset(StatusEntries(order, routes, domain));
      forall entry: Entry ensures list[entry] == status[entry] {
        EntryAgrees(ports, order, routes, domain, entry);
        NoOccurrence(routes.appRoutes, entry.port);
      }
      assert list == status;
    } else {
      RepeatIsShown(ports, order, routes, domain);
    }
  }

  /** Routes as buildRoutes makes them, shown by both views alike and only on the app's ports. */
  lemma BuiltRoutesAgree(ports: seq<Port>, order: seq<Port>, overrides: seq<RouteOverride>, routes: Routes,
                         domain: string, entry: Entry)
    requires IsPortOrder(order, ports) && IsGrouping(routes.appRoutes, overrides, domain)
    ensures multiset(ListEntries(ports, routes, domain)) == multiset(StatusEntries(order, routes, domain))
    ensures entry in StatusEntries(order, routes, domain) <==>
            && entry.port in ports
            && (entry.Http? ==> entry.host in HostsFor(overrides, entry.port, domain))
            && (entry.Tcp? ==> entry.domain == domain && TcpRoute(entry.externalPort, entry.port) in routes.tcpRoutes)
  {
    forall port | port in ports ensures Occurrences(routes.appRoutes, port) <= 1 {
      GroupingLossless(routes.appRoutes, overrides, domain, port);
    }
    ViewsAgree(ports, order, routes, domain);
    GroupingLossless(routes.appRoutes, overrides, domain, entry.port);
    StatusCount(order, routes, domain, entry);
    ExternalPortsMembers(routes.tcpRoutes, entry.port);
    assert entry in StatusEntries(order, routes, domain) <==> entry in multiset(StatusEntries(order, routes, domain));
    assert PortSet(order) == PortSet(ports);
  }

  lemma {:induction false} ExternalPortsMembers(tcpRoutes: seq<TcpRoute>, port: Port)
    ensures forall external: Port ::
              external in ExternalPorts(tcpRoutes, port) <==> TcpRoute(external, port) in tcpRoutes
  {
    if tcpRoutes != [] {
      var n := |tcpRoutes| - 1;
      ExternalPortsMembers(tcpRoutes[..n], port);
      assert tcpRoutes == tcpRoutes[..n] + [tcpRoutes[n]];
    }
  }
}

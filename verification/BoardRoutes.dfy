/**
 * The pin routes of a board descriptor (board_contract.py): their validation against the platform
 * registry, and the selection of the routes that a build uses.
 */
module BoardRoutes {
  import opened Bytes

  const LAST_PIN: int := 47

  datatype Route = Route(
    id: string, macro: string, pin: int, function_: string, peripheral: string,
    compile: bool, exclusive: Option<string>, mux: Option<string>)

  datatype Role = Role(function_: string, peripheral: string)

  datatype Wiring = Wiring(macro: string, function_: string, pin: int, peripheral: string)

  /** Functions with their peripherals, the roles of macros, and the legacy runtime muxes. */
  datatype Registry = Registry(functions: map<string, string>, roles: map<string, Role>, muxes: map<string, set<Wiring>>)

  /** The part of a descriptor that routes are about. `runtime` is its level of support. */
  datatype Board = Board(routes: seq<Route>, runtime: bool, selections: map<string, string>)

  datatype Problem =
    | BadField(index: nat)
    | UnknownFunction(index: nat)
    | WrongPeripheral(index: nat)
    | UnknownRole(index: nat)
    | WrongRole(index: nat)
    | DuplicateId(index: nat)
    | DuplicateMacro(index: nat)
    | BothGroups(index: nat)
    | MuxNotCompiled(index: nat)
    | Collision(left: nat, right: nat)
    | MuxOnPort(group: string)
    | MuxTooSmall(group: string)
    | MuxWithoutCollision(group: string)
    | MuxOnePeripheral(group: string)
    | MuxUnknown(group: string)
    | MuxDiffers(group: string)
    | SelectionUnknown(group: string)
    | SelectionOutside(group: string)
    | SelectionNotCompiled(group: string)
    | SelectionMissing(group: string)
    | OmittedButCompiled(group: string)

  // ---------------------------------------------------------------- the contract of a descriptor

  predicate NonEmpty(o: Option<string>) { o.Some? ==> o.value != "" }

  predicate FieldsFit(r: Route) {
    && r.id != "" && r.macro != "" && r.function_ != "" && r.peripheral != "" && 0 <= r.pin <= LAST_PIN
    && NonEmpty(r.exclusive) && NonEmpty(r.mux)
  }

  /** The route is the registered use of its macro and its function. */
  predicate Registered(reg: Registry, r: Route) {
    && r.function_ in reg.functions && reg.functions[r.function_] == r.peripheral
    && r.macro in reg.roles && reg.roles[r.macro] == Role(r.function_, r.peripheral)
  }

  predicate RouteFits(reg: Registry, r: Route) {
    FieldsFit(r) && Registered(reg, r) && (r.mux.Some? ==> r.exclusive.None? && r.compile)
  }

  predicate SameExclusive(l: Route, r: Route) { l.exclusive.Some? && l.exclusive == r.exclusive }

  predicate SameMux(l: Route, r: Route) { l.mux.Some? && l.mux == r.mux }

  /** Two routes may share an identifier, a macro, a pin or a function only as far as this. */
  predicate NamesFit(l: Route, r: Route) { l.id != r.id && (l.macro == r.macro ==> SameExclusive(l, r)) }

  predicate WiresFit(l: Route, r: Route) {
    && (l.function_ == r.function_ ==> SameExclusive(l, r))
    && (l.pin == r.pin ==> SameExclusive(l, r) || SameMux(l, r))
  }

  datatype Kind = Exclusive | Mux

  predicate InGroup(r: Route, kind: Kind, g: string) {
    match kind
    case Exclusive => r.exclusive == Some(g)
    case Mux => r.mux == Some(g)
  }

  /** The routes of a group, in order, among the first `n`. */
  function Members(routes: seq<Route>, kind: Kind, g: string, n: nat): seq<Route>
    requires n <= |routes|
  {
    if n == 0 then []
    else Members(routes, kind, g, n - 1) + if InGroup(routes[n - 1], kind, g) then [routes[n - 1]] else []
  }

  lemma {:induction false} MembersAre(routes: seq<Route>, kind: Kind, g: string, n: nat)
    requires n <= |routes|
    ensures forall r :: r in Members(routes, kind, g, n) <==> r in routes[..n] && InGroup(r, kind, g)
  {
    if n > 0 {
      MembersAre(routes, kind, g, n - 1);
      assert routes[..n] == routes[..n - 1] + [routes[n - 1]];
    }
  }

  lemma GroupIs(b: Board, kind: Kind, g: string)
    ensures forall r :: r in Group(b, kind, g) <==> r in b.routes && InGroup(r, kind, g)
  {
    MembersAre(b.routes, kind, g, |b.routes|);
    assert b.routes[..|b.routes|] == b.routes;
  }

  function WiringOf(r: Route): Wiring { Wiring(r.macro, r.function_, r.pin, r.peripheral) }

  function Wirings(members: seq<Route>): set<Wiring> { set r | r in members :: WiringOf(r) }

  predicate SharesPin(members: seq<Route>) {
    exists i, j :: 0 <= i < j < |members| && members[i].pin == members[j].pin
  }

  predicate MixesPeripherals(members: seq<Route>) {
    exists i, j :: 0 <= i < j < |members| && members[i].peripheral != members[j].peripheral
  }

  /** A runtime mux is exactly what the registry preserves for it. */
  predicate MuxFits(b: Board, reg: Registry, g: string, members: seq<Route>) {
    && b.runtime && |members| >= 2 && SharesPin(members) && MixesPeripherals(members)
    && g in reg.muxes && Wirings(members) == reg.muxes[g] && |members| == |reg.muxes[g]|
  }

  predicate Selectable(members: seq<Route>, id: string) { exists r :: r in members && r.id == id && r.compile }

  /** One compiled route is selected, or a port that is not for runtime compiles none. */
  predicate ExclusiveFits(b: Board, g: string, members: seq<Route>) {
    if g in b.selections then Selectable(members, b.selections[g])
    else !b.runtime && forall r :: r in members ==> !r.compile
  }

  function Group(b: Board, kind: Kind, g: string): seq<Route> { Members(b.routes, kind, g, |b.routes|) }

  predicate RoutesFit(b: Board, reg: Registry) { forall r :: r in b.routes ==> RouteFits(reg, r) }

  predicate AllNamesFit(routes: seq<Route>) {
    forall i, j :: 0 <= i < j < |routes| ==> NamesFit(routes[i], routes[j])
  }

  predicate AllWiresFit(routes: seq<Route>) {
    forall i, j :: 0 <= i < j < |routes| ==> WiresFit(routes[i], routes[j])
  }

  ghost predicate MuxesFit(b: Board, reg: Registry) {
    forall g :: Group(b, Mux, g) != [] ==> MuxFits(b, reg, g, Group(b, Mux, g))
  }

  ghost predicate SelectionsFit(b: Board) {
    && (forall g :: g in b.selections ==> Group(b, Exclusive, g) != [])
    && forall g :: Group(b, Exclusive, g) != [] ==> ExclusiveFits(b, g, Group(b, Exclusive, g))
  }

  ghost predicate Acceptable(b: Board, reg: Registry) {
    RoutesFit(b, reg) && AllNamesFit(b.routes) && AllWiresFit(b.routes) && MuxesFit(b, reg) && SelectionsFit(b)
  }

  // ---------------------------------------------------------------- validation

  /** The checks on one route by itself. */
  method CheckRoute(reg: Registry, r: Route, index: nat) returns (p: Option<Problem>)
    ensures p.None? <==> FieldsFit(r) && Registered(reg, r)
  {
    if !FieldsFit(r) {
      return Some(BadField(index));
    }
    if r.function_ !in reg.functions {
      return Some(UnknownFunction(index));
    }
    if r.peripheral != reg.functions[r.function_] {
      return Some(WrongPeripheral(index));
    }
    if r.macro !in reg.roles {
      return Some(UnknownRole(index));
    }
    if reg.roles[r.macro].function_ != r.function_ || reg.roles[r.macro].peripheral != r.peripheral {
      return Some(WrongRole(index));
    }
    return None;
  }

  type Groups = map<string, seq<Route>>

  /** The dictionary holds the groups of the first `n` routes. */
  ghost predicate Grouped(groups: Groups, routes: seq<Route>, kind: Kind, n: nat)
    requires n <= |routes|
  {
    forall g :: (g in groups <==> Members(routes, kind, g, n) != []) && (g in groups ==> groups[g] == Members(routes, kind, g, n))
  }

  /** `groups.setdefault(group, []).append(route)`, for a route that has such a group. */
  function Added(groups: Groups, group: Option<string>, r: Route): Groups {
    if group.None? then groups
    else groups[group.value := (if group.value in groups then groups[group.value] else []) + [r]]
  }

  lemma AddedIsGrouped(groups: Groups, routes: seq<Route>, kind: Kind, n: nat)
    requires n < |routes| && Grouped(groups, routes, kind, n)
    ensures Grouped(Added(groups, if kind == Exclusive then routes[n].exclusive else routes[n].mux, routes[n]), routes, kind, n + 1)
  {
  }

  /** The dictionary of macros: only the latest route of each is remembered. */
  ghost predicate Latest(macros: map<string, Route>, routes: seq<Route>, n: nat)
    requires n <= |routes|
  {
    && (forall m :: m in macros ==> macros[m] in routes[..n] && macros[m].macro == m)
    && forall i :: 0 <= i < n ==> routes[i].macro in macros
  }

  /** In an exclusive group with the latest route of a macro is in it with all of them. */
  lemma LatestIsEnough(macros: map<string, Route>, routes: seq<Route>, n: nat)
    requires n < |routes| && Latest(macros, routes, n) && AllNamesFit(routes[..n])
    requires routes[n].macro in macros ==> SameExclusive(macros[routes[n].macro], routes[n])
    ensures forall i :: 0 <= i < n && routes[i].macro == routes[n].macro ==> SameExclusive(routes[i], routes[n])
  {
    forall i | 0 <= i < n && routes[i].macro == routes[n].macro
      ensures SameExclusive(routes[i], routes[n])
    {
      var k :| 0 <= k < n && routes[..n][k] == macros[routes[n].macro];
      assert routes[..n][i] == routes[i];
      assert k < i ==> NamesFit(routes[..n][k], routes[..n][i]);
      assert i < k ==> NamesFit(routes[..n][i], routes[..n][k]);
    }
  }

  lemma NamesExtend(routes: seq<Route>, n: nat)
    requires n < |routes| && AllNamesFit(routes[..n]) && forall i :: 0 <= i < n ==> NamesFit(routes[i], routes[n])
    ensures AllNamesFit(routes[..n + 1])
  {
    var more := routes[..n + 1];
    forall i, j | 0 <= i < j < |more|
      ensures NamesFit(more[i], more[j])
    {
      assert j < n ==> NamesFit(routes[..n][i], routes[..n][j]);
    }
  }

  lemma NamesBreak(routes: seq<Route>, n: nat, l: Route)
    requires n < |routes| && l in routes[..n] && !NamesFit(l, routes[n])
    ensures !AllNamesFit(routes)
  {
    var i :| 0 <= i < n && routes[..n][i] == l;
    assert routes[i] == l;
  }

  /** What the loop remembers of the names used by the first `n` routes, all of which fit. */
  ghost predicate Names(ids: set<string>, macros: map<string, Route>, routes: seq<Route>, n: nat)
    requires n <= |routes|
  {
    && ids == (set i | 0 <= i < n :: routes[i].id)
    && Latest(macros, routes, n) && AllNamesFit(routes[..n])
  }

  lemma NamesStep(ids: set<string>, macros: map<string, Route>, routes: seq<Route>, n: nat)
    requires n < |routes| && Names(ids, macros, routes, n) && routes[n].id !in ids
    requires routes[n].macro in macros ==> SameExclusive(macros[routes[n].macro], routes[n])
    ensures Names(ids + {routes[n].id}, macros[routes[n].macro := routes[n]], routes, n + 1)
  {
    LatestIsEnough(macros, routes, n);
    NamesExtend(routes, n);
    assert routes[..n + 1] == routes[..n] + [routes[n]];
  }

  method CheckNames(ids: set<string>, macros: map<string, Route>, routes: seq<Route>, k: nat) returns (p: Option<Problem>)
    requires k < |routes| && Names(ids, macros, routes, k)
    ensures p.None? ==> Names(ids + {routes[k].id}, macros[routes[k].macro := routes[k]], routes, k + 1)
    ensures p.Some? ==> !AllNamesFit(routes)
  {
    var route := routes[k];
    if route.id in ids {
      ghost var i :| 0 <= i < k && routes[i].id == route.id;
      assert !NamesFit(routes[i], routes[k]);
      return Some(DuplicateId(k));
    }
    if route.macro in macros && !SameExclusive(macros[route.macro], route) {
      NamesBreak(routes, k, macros[route.macro]);
      return Some(DuplicateMacro(k));
    }
    NamesStep(ids, macros, routes, k);
    return None;
  }

  /** The dictionaries that the loop over the routes fills. */
  datatype Seen = Seen(ids: set<string>, macros: map<string, Route>, groups: Groups, muxes: Groups)

  ghost predicate Remembers(seen: Seen, routes: seq<Route>, n: nat)
    requires n <= |routes|
  {
    && Names(seen.ids, seen.macros, routes, n)
    && Grouped(seen.groups, routes, Exclusive, n) && Grouped(seen.muxes, routes, Mux, n)
  }

  lemma RemembersStep(seen: Seen, routes: seq<Route>, n: nat, next: Seen)
    requires n < |routes| && Remembers(seen, routes, n)
    requires Names(next.ids, next.macros, routes, n + 1)
    requires next.groups == Added(seen.groups, routes[n].exclusive, routes[n])
    requires next.muxes == Added(seen.muxes, routes[n].mux, routes[n])
    ensures Remembers(next, routes, n + 1)
  {
    AddedIsGrouped(seen.groups, routes, Exclusive, n);
    AddedIsGrouped(seen.muxes, routes, Mux, n);
  }

  ghost predicate FitTo(reg: Registry, routes: seq<Route>, n: nat)
    requires n <= |routes|
  {
    forall i :: 0 <= i < n ==> RouteFits(reg, routes[i])
  }

  lemma AllFit(b: Board, reg: Registry)
    ensures FitTo(reg, b.routes, |b.routes|) <==> RoutesFit(b, reg)
  {
    assert forall i :: 0 <= i < |b.routes| ==> b.routes[i] in b.routes;
  }

  lemma NamesAllFit(seen: Seen, routes: seq<Route>)
    requires Remembers(seen, routes, |routes|)
    ensures AllNamesFit(routes)
  {
    assert routes[..|routes|] == routes;
  }

  /** One turn of the loop over the routes. */
  method TakeRoute(reg: Registry, routes: seq<Route>, k: nat, seen: Seen) returns (p: Option<Problem>, next: Seen)
    requires k < |routes| && Remembers(seen, routes, k) && FitTo(reg, routes, k)
    ensures p.None? ==> FitTo(reg, routes, k + 1) && Remembers(next, routes, k + 1)
    ensures p.Some? ==> !(FitTo(reg, routes, |routes|) && AllNamesFit(routes))
  {
    next := seen;
    var route := routes[k];
    p := CheckRoute(reg, route, k);
    if p.Some? {
      return;
    }
    p := CheckNames(seen.ids, seen.macros, routes, k);
    if p.Some? {
      return;
    }
    next := Seen(
      seen.ids + {route.id}, seen.macros[route.macro := route],
      Added(seen.groups, route.exclusive, route), Added(seen.muxes, route.mux, route));
    RemembersStep(seen, routes, k, next);
    if route.mux.Some? && route.exclusive.Some? {
      p := Some(BothGroups(k));
    } else if route.mux.Some? && !route.compile {
      p := Some(MuxNotCompiled(k));
    }
  }

  /** The loop over the routes. */
  method TakeRoutes(reg: Registry, routes: seq<Route>) returns (p: Option<Problem>, seen: Seen)
    ensures p.Some? ==> !(FitTo(reg, routes, |routes|) && AllNamesFit(routes))
    ensures p.None? ==> FitTo(reg, routes, |routes|) && Remembers(seen, routes, |routes|)
  {
    p, seen := None, Seen({}, map[], map[], map[]);
    NothingSeen(reg, routes);
    for k := 0 to |routes|
      invariant FitTo(reg, routes, k) && Remembers(seen, routes, k)
    {
      p, seen := TakeRoute(reg, routes, k, seen);
      if p.Some? {
        return;
      }
    }
    p := None;
  }

  lemma NothingSeen(reg: Registry, routes: seq<Route>)
    ensures FitTo(reg, routes, 0) && Remembers(Seen({}, map[], map[], map[]), routes, 0)
  {
  }

  method CheckRoutes(b: Board, reg: Registry) returns (p: Option<Problem>, seen: Seen)
    ensures p.None? <==> RoutesFit(b, reg) && AllNamesFit(b.routes)
    ensures p.None? ==> Remembers(seen, b.routes, |b.routes|)
  {
    AllFit(b, reg);
    p, seen := TakeRoutes(reg, b.routes);
    if p.None? {
      NamesAllFit(seen, b.routes);
    }
  }

  /** The nested loops over pairs of routes. */
  method CheckPairs(routes: seq<Route>) returns (p: Option<Problem>)
    ensures p.None? <==> AllWiresFit(routes)
  {
    for i := 0 to |routes|
      invariant forall k, j :: 0 <= k < i && k < j < |routes| ==> WiresFit(routes[k], routes[j])
    {
      for j := i + 1 to |routes|
        invariant forall k :: i < k < j ==> WiresFit(routes[i], routes[k])
      {
        var left, right := routes[i], routes[j];
        var pinCollision, functionCollision := left.pin == right.pin, left.function_ == right.function_;
        var allowed := SameExclusive(left, right) || (pinCollision && !functionCollision && SameMux(left, right));
        if (pinCollision || functionCollision) && !allowed {
          assert !WiresFit(routes[i], routes[j]);
          return Some(Collision(i, j));
        }
      }
    }
    return None;
  }

  function Pins(members: seq<Route>): set<int> { set r | r in members :: r.pin }

  lemma {:induction false} PinsCount(members: seq<Route>)
    ensures |members| == |Pins(members)| <==> !SharesPin(members)
    ensures |Pins(members)| <= |members|
  {
    if members != [] {
      var most, last := members[..|members| - 1], members[|members| - 1];
      PinsCount(most);
      assert members == most + [last];
      assert Pins(members) == Pins(most) + {last.pin};
      SharesPinStep(most, last);
    }
  }

  lemma SharesPinStep(most: seq<Route>, last: Route)
    ensures SharesPin(most + [last]) <==> SharesPin(most) || last.pin in Pins(most)
  {
    var members := most + [last];
    if SharesPin(members) {
      var i, j :| 0 <= i < j < |members| && members[i].pin == members[j].pin;
      assert most[i] in most && (j < |most| ==> most[i].pin == most[j].pin);
    }
    if SharesPin(most) {
      var i, j :| 0 <= i < j < |most| && most[i].pin == most[j].pin;
      assert members[i].pin == members[j].pin;
    }
    if last.pin in Pins(most) {
      var i :| 0 <= i < |most| && most[i].pin == last.pin;
      assert members[i].pin == members[|most|].pin;
    }
  }

  lemma PeripheralsCount(members: seq<Route>)
    requires members != []
    ensures |set r | r in members :: r.peripheral| >= 2 <==> MixesPeripherals(members)
  {
    var names := set r | r in members :: r.peripheral;
    var first := members[0].peripheral;
    assert members[0] in members && first in names;
    if MixesPeripherals(members) {
      var i, j :| 0 <= i < j < |members| && members[i].peripheral != members[j].peripheral;
      assert members[i] in members && members[j] in members;
      var two := {members[i].peripheral, members[j].peripheral};
      Contained(two, names);
    } else {
      forall n | n in names
        ensures n == first
      {
        var k :| 0 <= k < |members| && members[k].peripheral == n;
      }
      assert names == {first};
    }
  }

  lemma {:induction false} Contained(a: set<string>, b: set<string>)
    requires a <= b
    ensures |a| <= |b|
    decreases a
  {
    if x :| x in a {
      Contained(a - {x}, b - {x});
    }
  }

  method CheckMux(b: Board, reg: Registry, g: string, members: seq<Route>) returns (p: Option<Problem>)
    requires members != []
    ensures p.None? <==> MuxFits(b, reg, g, members)
  {
    if !b.runtime {
      return Some(MuxOnPort(g));
    }
    if |members| < 2 {
      return Some(MuxTooSmall(g));
    }
    PinsCount(members);
    if |members| == |Pins(members)| {
      return Some(MuxWithoutCollision(g));
    }
    PeripheralsCount(members);
    if |set r | r in members :: r.peripheral| < 2 {
      return Some(MuxOnePeripheral(g));
    }
    if g !in reg.muxes {
      return Some(MuxUnknown(g));
    }
    if Wirings(members) != reg.muxes[g] || |members| != |reg.muxes[g]| {
      return Some(MuxDiffers(g));
    }
    return None;
  }

  method CheckMuxes(b: Board, reg: Registry, muxes: Groups) returns (p: Option<Problem>)
    requires Grouped(muxes, b.routes, Mux, |b.routes|)
    ensures p.None? <==> MuxesFit(b, reg)
  {
    var todo := muxes.Keys;
    while todo != {}
      invariant todo <= muxes.Keys
      invariant forall g :: g in muxes.Keys - todo ==> MuxFits(b, reg, g, muxes[g])
      decreases todo
    {
      var g :| g in todo;
      todo := todo - {g};
      assert Group(b, Mux, g) == muxes[g] && muxes[g] != [];
      p := CheckMux(b, reg, g, muxes[g]);
      if p.Some? {
        return;
      }
    }
    return None;
  }

  /** The loop over the selections: each is a compiled route of an existing group. */
  method CheckSelected(b: Board, groups: Groups) returns (p: Option<Problem>)
    requires AllNamesFit(b.routes) && Grouped(groups, b.routes, Exclusive, |b.routes|)
    ensures p.None? <==> forall g :: g in b.selections ==> g in groups && Selectable(groups[g], b.selections[g])
  {
    if g :| g in b.selections && g !in groups {
      return Some(SelectionUnknown(g));
    }
    var todo := b.selections.Keys;
    while todo != {}
      invariant todo <= b.selections.Keys
      invariant forall g :: g in b.selections.Keys - todo ==> Selectable(groups[g], b.selections[g])
      decreases todo
    {
      var g :| g in todo;
      todo := todo - {g};
      var chosen := FirstWithId(groups[g], b.selections[g]);
      if chosen.None? {
        return Some(SelectionOutside(g));
      }
      if !chosen.value.compile {
        GroupIs(b, Exclusive, g);
        OneIsChosen(b, Group(b, Exclusive, g), chosen.value);
        return Some(SelectionNotCompiled(g));
      }
    }
    return None;
  }

  method FirstWithId(members: seq<Route>, id: string) returns (r: Option<Route>)
    ensures r.None? <==> forall m :: m in members ==> m.id != id
    ensures r.Some? ==> r.value in members && r.value.id == id
  {
    for k := 0 to |members|
      invariant forall i :: 0 <= i < k ==> members[i].id != id
    {
      if members[k].id == id {
        return Some(members[k]);
      }
    }
    return None;
  }

  /** Identifiers are unique, so a selection names one route. */
  lemma OneIsChosen(b: Board, members: seq<Route>, r: Route)
    requires AllNamesFit(b.routes) && r in b.routes && forall m :: m in members ==> m in b.routes
    ensures forall m :: m in members && m.id == r.id ==> m == r
  {
    forall m | m in members && m.id == r.id
      ensures m == r
    {
      var i :| 0 <= i < |b.routes| && b.routes[i] == m;
      var j :| 0 <= j < |b.routes| && b.routes[j] == r;
      assert i < j ==> NamesFit(b.routes[i], b.routes[j]);
      assert j < i ==> NamesFit(b.routes[j], b.routes[i]);
    }
  }

  /** The loop over the groups that have no selection. */
  method CheckOmitted(b: Board, groups: Groups) returns (p: Option<Problem>)
    ensures p.None? <==> forall g :: g in groups && g !in b.selections ==> !b.runtime && forall r :: r in groups[g] ==> !r.compile
  {
    var todo := groups.Keys;
    while todo != {}
      invariant todo <= groups.Keys
      invariant forall g :: g in groups.Keys - todo && g !in b.selections ==> !b.runtime && forall r :: r in groups[g] ==> !r.compile
      decreases todo
    {
      var g :| g in todo;
      todo := todo - {g};
      if g in b.selections {
        continue;
      }
      if b.runtime {
        return Some(SelectionMissing(g));
      }
      if r :| r in groups[g] && r.compile {
        return Some(OmittedButCompiled(g));
      }
    }
    return None;
  }

  /** `_validate_routes`: no problem is found exactly when the descriptor keeps the contract. */
  method ValidateRoutes(b: Board, reg: Registry) returns (p: Option<Problem>)
    ensures p.None? <==> Acceptable(b, reg)
  {
    var seen: Seen;
    p, seen := CheckRoutes(b, reg);
    if p.Some? {
      return;
    }
    p := CheckPairs(b.routes);
    if p.Some? {
      return;
    }
    p := CheckMuxes(b, reg, seen.muxes);
    if p.Some? {
      return;
    }
    p := CheckSelected(b, seen.groups);
    if p.None? {
      p := CheckOmitted(b, seen.groups);
    }
    SelectionsByGroup(b, seen.groups);
  }

  lemma SelectionsByGroup(b: Board, groups: Groups)
    requires Grouped(groups, b.routes, Exclusive, |b.routes|)
    ensures SelectionsFit(b) <==>
      && (forall g :: g in b.selections ==> g in groups && Selectable(groups[g], b.selections[g]))
      && (forall g :: g in groups && g !in b.selections ==> !b.runtime && forall r :: r in groups[g] ==> !r.compile)
  {
    assert forall g :: g in groups <==> Group(b, Exclusive, g) != [];
    assert forall g :: g in groups ==> groups[g] == Group(b, Exclusive, g);
  }

  // ---------------------------------------------------------------- selection

  predicate Chosen(b: Board, r: Route) {
    r.compile && (r.exclusive.Some? && r.exclusive.value != "" ==> r.exclusive.value in b.selections && b.selections[r.exclusive.value] == r.id)
  }

  /** The chosen routes, in order, among the first `n`. */
  function Selected(b: Board, n: nat): (routes: seq<Route>)
    requires n <= |b.routes|
    ensures forall r :: r in routes <==> r in b.routes[..n] && Chosen(b, r)
  {
    if n == 0 then []
    else
      assert b.routes[..n] == b.routes[..n - 1] + [b.routes[n - 1]];
      Selected(b, n - 1) + if Chosen(b, b.routes[n - 1]) then [b.routes[n - 1]] else []
  }

  /** `Board.selected_routes` */
  method SelectedRoutes(b: Board) returns (result: seq<Route>)
    ensures result == Selected(b, |b.routes|)
    ensures forall r :: r in result <==>
              && r in b.routes && r.compile
              && (|| r.exclusive.None? || r.exclusive.value == ""
                  || (r.exclusive.value in b.selections && b.selections[r.exclusive.value] == r.id))
  {
    result := [];
    for k := 0 to |b.routes|
      invariant result == Selected(b, k)
    {
      var route := b.routes[k];
      if !route.compile {
        continue;
      }
      if route.exclusive.Some? && route.exclusive.value != ""
         && !(route.exclusive.value in b.selections && b.selections[route.exclusive.value] == route.id) {
        continue;
      }
      result := result + [route];
    }
    forall r
      ensures r in result <==>
        && r in b.routes && r.compile
        && (|| r.exclusive.None? || r.exclusive.value == ""
            || (r.exclusive.value in b.selections && b.selections[r.exclusive.value] == r.id))
    {
      SelectedExactly(b, r);
    }
  }

  lemma SelectedExactly(b: Board, r: Route)
    ensures r in Selected(b, |b.routes|) <==> r in b.routes && Chosen(b, r)
  {
    assert b.routes[..|b.routes|] == b.routes;
  }

  /** What two selected routes may have in common: a pin, when one runtime mux preserves both. */
  predicate Compatible(l: Route, r: Route) {
    l.macro != r.macro && l.function_ != r.function_ && (l.pin == r.pin ==> SameMux(l, r))
  }

  lemma ChosenAreCompatible(b: Board, reg: Registry, i: nat, j: nat)
    requires Acceptable(b, reg) && i < j < |b.routes| && Chosen(b, b.routes[i]) && Chosen(b, b.routes[j])
    ensures Compatible(b.routes[i], b.routes[j])
  {
    var l, r := b.routes[i], b.routes[j];
    assert l in b.routes && RouteFits(reg, l);
    assert NamesFit(l, r) && WiresFit(l, r);
    assert !SameExclusive(l, r);
  }

  /** The routes a build uses for a validated board do not compete for macros, functions or pins. */
  lemma {:induction false} SelectedAreCompatible(b: Board, reg: Registry, n: nat)
    requires Acceptable(b, reg) && n <= |b.routes|
    ensures forall i, j :: 0 <= i < j < |Selected(b, n)| ==> Compatible(Selected(b, n)[i], Selected(b, n)[j])
  {
    if n > 0 {
      SelectedAreCompatible(b, reg, n - 1);
      var before := Selected(b, n - 1);
      if Chosen(b, b.routes[n - 1]) {
        forall r | r in before
          ensures Compatible(r, b.routes[n - 1])
        {
          var i :| 0 <= i < n - 1 && b.routes[..n - 1][i] == r;
          ChosenAreCompatible(b, reg, i, n - 1);
        }
        assert Selected(b, n) == before + [b.routes[n - 1]];
        assert forall i :: 0 <= i < |before| ==> before[i] in before;
      } else {
        assert Selected(b, n) == before;
      }
    }
  }

  /** Every exclusive group of a validated board has one selected route, or nothing of it compiles. */
  lemma OneRoutePerGroup(b: Board, reg: Registry, g: string)
    requires Acceptable(b, reg) && Group(b, Exclusive, g) != []
    ensures g in b.selections ==> exists r :: InGroup(r, Exclusive, g) && Picked(b, r)
    ensures forall r, s :: InGroup(r, Exclusive, g) && InGroup(s, Exclusive, g) && Picked(b, r) && Picked(b, s) ==> r == s
    ensures g !in b.selections ==> !b.runtime && forall r :: InGroup(r, Exclusive, g) ==> !Picked(b, r)
  {
    assert b.routes[..|b.routes|] == b.routes;
    GroupIs(b, Exclusive, g);
    var members := Group(b, Exclusive, g);
    assert members[0] in members;
    assert ExclusiveFits(b, g, members) && RouteFits(reg, members[0]);
    if g in b.selections {
      var r :| r in members && r.id == b.selections[g] && r.compile;
      assert Chosen(b, r);
      assert Picked(b, r);
      OneIsChosen(b, members, r);
    }
  }

  predicate Picked(b: Board, r: Route) { r in Selected(b, |b.routes|) }

  /** A compiled route outside the exclusive groups is always selected. */
  lemma OrdinaryRouteIsSelected(b: Board, reg: Registry, r: Route)
    requires Acceptable(b, reg) && r in b.routes && r.compile && r.exclusive.None?
    ensures Picked(b, r)
  {
    assert b.routes[..|b.routes|] == b.routes;
  }

  /** A compiled route is left out exactly when another one of its exclusive group has been selected instead. */
  lemma LeftOutForAnother(b: Board, reg: Registry, r: Route)
    requires Acceptable(b, reg) && r in b.routes && r.compile
    ensures !Picked(b, r) <==>
      r.exclusive.Some? && r.exclusive.value in b.selections && b.selections[r.exclusive.value] != r.id
    ensures !Picked(b, r) <==> exists s :: Picked(b, s) && s != r && SameExclusive(s, r)
  {
    assert b.routes[..|b.routes|] == b.routes;
    if r.exclusive.Some? {
      var g := r.exclusive.value;
      GroupIs(b, Exclusive, g);
      assert r in Group(b, Exclusive, g) && RouteFits(reg, r);
      OneRoutePerGroup(b, reg, g);
      assert ExclusiveFits(b, g, Group(b, Exclusive, g));
    }
  }

  /** The selected routes keep the order of the descriptor: these are their places in it. */
  lemma {:induction false} SelectedPlaces(b: Board, n: nat) returns (places: seq<nat>)
    requires n <= |b.routes|
    ensures |places| == |Selected(b, n)|
    ensures forall i :: 0 <= i < |places| ==> places[i] < n && Selected(b, n)[i] == b.routes[places[i]]
    ensures forall i, j :: 0 <= i < j < |places| ==> places[i] < places[j]
  {
    if n == 0 {
      places := [];
    } else {
      places := SelectedPlaces(b, n - 1);
      if Chosen(b, b.routes[n - 1]) {
        places := places + [n - 1];
      }
    }
  }

  /** What a build wires is what the registry says of the macro and of the function, on a pin of the chip. */
  lemma SelectedIsRegistered(b: Board, reg: Registry, r: Route)
    requires Acceptable(b, reg) && Picked(b, r)
    ensures 0 <= r.pin < 48 && r.id != "" && r.macro != ""
    ensures r.function_ in reg.functions && reg.functions[r.function_] == r.peripheral
    ensures r.macro in reg.roles && reg.roles[r.macro] == Role(r.function_, r.peripheral)
  {
    assert b.routes[..|b.routes|] == b.routes;
    assert RouteFits(reg, r);
  }

  /** Every selection of an accepted descriptor is the identifier of a route that is selected, in the group it is made for. */
  lemma SelectionNamesRoute(b: Board, reg: Registry, g: string)
    requires Acceptable(b, reg) && g in b.selections
    ensures exists r :: Picked(b, r) && r.exclusive == Some(g) && r.id == b.selections[g]
  {
    assert b.routes[..|b.routes|] == b.routes;
    GroupIs(b, Exclusive, g);
    assert ExclusiveFits(b, g, Group(b, Exclusive, g));
    var r :| r in Group(b, Exclusive, g) && r.id == b.selections[g] && r.compile;
    assert Picked(b, r);
  }

  /** A route in a mux group is there for a reason: a runtime board, a registered wiring, a pin and peripherals to switch. */
  lemma MuxRoutesSwitch(b: Board, reg: Registry, r: Route)
    requires Acceptable(b, reg) && r in b.routes && r.mux.Some?
    ensures b.runtime && r.compile && r.exclusive.None?
    ensures r.mux.value in reg.muxes && Wiring(r.macro, r.function_, r.pin, r.peripheral) in reg.muxes[r.mux.value]
    ensures exists s, t :: s in b.routes && t in b.routes && s.mux == t.mux == r.mux && s.id != t.id && s.pin == t.pin
    ensures exists s, t :: s in b.routes && t in b.routes && s.mux == t.mux == r.mux && s.peripheral != t.peripheral
  {
    var g := r.mux.value;
    GroupIs(b, Mux, g);
    var members := Group(b, Mux, g);
    assert r in members && RouteFits(reg, r) && MuxFits(b, reg, g, members);
    assert WiringOf(r) in Wirings(members);
    var i, j :| 0 <= i < j < |members| && members[i].pin == members[j].pin;
    MembersDiffer(b, g, |b.routes|, i, j);
    var k, l :| 0 <= k < l < |members| && members[k].peripheral != members[l].peripheral;
    assert members[i] in members && members[j] in members && members[k] in members && members[l] in members;
  }

  /** Different places of a group hold different routes. */
  lemma {:induction false} MembersDiffer(b: Board, g: string, n: nat, i: nat, j: nat)
    requires AllNamesFit(b.routes) && n <= |b.routes| && i < j < |Members(b.routes, Mux, g, n)|
    ensures Members(b.routes, Mux, g, n)[i].id != Members(b.routes, Mux, g, n)[j].id
  {
    var before := Members(b.routes, Mux, g, n - 1);
    if j < |before| {
      MembersDiffer(b, g, n - 1, i, j);
    } else {
      MembersAre(b.routes, Mux, g, n - 1);
      assert before[i] in before;
      var k :| 0 <= k < n - 1 && b.routes[..n - 1][k] == before[i];
      assert NamesFit(b.routes[k], b.routes[n - 1]);
    }
  }

  /** All routes of a runtime mux are selected, so the preserved wiring stays whole. */
  lemma MuxStaysWhole(b: Board, reg: Registry, g: string)
    requires Acceptable(b, reg) && Group(b, Mux, g) != []
    ensures g in reg.muxes && forall w :: w in reg.muxes[g] ==> exists r :: Picked(b, r) && InGroup(r, Mux, g) && WiringOf(r) == w
  {
    assert b.routes[..|b.routes|] == b.routes;
    GroupIs(b, Mux, g);
    var members := Group(b, Mux, g);
    assert MuxFits(b, reg, g, members);
    forall w | w in reg.muxes[g]
      ensures exists r :: Picked(b, r) && InGroup(r, Mux, g) && WiringOf(r) == w
    {
      assert w in Wirings(members);
      var r :| r in members && WiringOf(r) == w;
      assert RouteFits(reg, r) && Picked(b, r);
    }
  }
}

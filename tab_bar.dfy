/**
 * The custom bottom tab bar: which routes get a tab, the icon of each
 * tab, which tab is highlighted, and what pressing a tab does.
 *
 * `TabsAsWritten` is the bar as the component builds it; `Tabs` is the
 * bar with the highlight decided by the route's own position (see the
 * lemmas at the end).
 */
module CustomTabBar {
  import opened Wrappers
  import opened Seqs

  datatype Route = Route(key: string, name: string)

  /** Routes named `auth` and `about-me` get no tab. */
  predicate Shown(r: Route)
  {
    r.name != "auth" && r.name != "about-me"
  }

  /** The routes that get a tab, in the navigator's order. */
  function VisibleRoutes(routes: seq<Route>): (r: seq<Route>)
    ensures |r| <= |routes|
    ensures forall i :: 0 <= i < |r| ==> r[i] in routes && r[i].name != "auth" && r[i].name != "about-me"
    ensures forall i :: 0 <= i < |routes| && Shown(routes[i]) ==> routes[i] in r
  {
    Filter(Shown, routes)
  }

  /** The tabs of routes listed earlier come first. */
  lemma VisibleRoutesKeepOrder(front: seq<Route>, back: seq<Route>)
    ensures VisibleRoutes(front + back) == VisibleRoutes(front) + VisibleRoutes(back)
  {
    FilterAppend(Shown, front, back);
  }

  /** The FontAwesome icon of a route: four named routes have their own, every other one a circle. */
  function IconName(name: string): (icon: string)
    ensures name == "index" ==> icon == "home"
    ensures name == "create" ==> icon == "plus"
    ensures name == "explore" ==> icon == "search"
    ensures name == "profile" ==> icon == "user"
    ensures name !in ["index", "create", "explore", "profile"] ==> icon == "circle"
  {
    if name == "index" then "home"
    else if name == "create" then "plus"
    else if name == "explore" then "search"
    else if name == "profile" then "user"
    else "circle"
  }

  datatype Tab = Tab(route: Route, icon: string, focused: bool)

  /**
   * The bar as built: one tab per visible route, highlighted when
   * `stateIndex` (the navigator's index into ALL its routes) equals the
   * tab's position among the VISIBLE routes.
   */
  function TabsAsWritten(routes: seq<Route>, stateIndex: int): (tabs: seq<Tab>)
    ensures |tabs| == |VisibleRoutes(routes)|
    ensures forall i :: 0 <= i < |tabs| ==>
              tabs[i].route == VisibleRoutes(routes)[i] && tabs[i].icon == IconName(tabs[i].route.name) &&
              (tabs[i].focused <==> stateIndex == i)
  {
    var visible := VisibleRoutes(routes);
    seq(|visible|, i requires 0 <= i < |visible| => Tab(visible[i], IconName(visible[i].name), stateIndex == i))
  }

  /**
   * `onPress`: after the `tabPress` event, navigate to the tab's route
   * unless the tab is highlighted or a listener prevented the default.
   */
  function OnPress(tab: Tab, defaultPrevented: bool): (navigateTo: Option<string>)
    ensures navigateTo.Some? <==> !tab.focused && !defaultPrevented
    ensures navigateTo.Some? ==> navigateTo.value == tab.route.name
  {
    if !tab.focused && !defaultPrevented then Some(tab.route.name) else None
  }

  /**
   * With a hidden route listed before the active one, the bar as built
   * highlights the wrong tab: `create` is active (index 2) but `profile`
   * is highlighted, and pressing `create` navigates to the current route.
   */
  lemma WrongTabHighlightedAfterHiddenRoute()
    ensures var routes := [Route("r0", "index"), Route("r1", "about-me"), Route("r2", "create"), Route("r3", "profile")];
            var tabs := TabsAsWritten(routes, 2);
            |tabs| == 3 && tabs[1].route.name == "create" && tabs[2].route.name == "profile" &&
            !tabs[1].focused && tabs[2].focused && OnPress(tabs[1], false) == Some("create")
  {
    var routes := [Route("r0", "index"), Route("r1", "about-me"), Route("r2", "create"), Route("r3", "profile")];
    assert routes[1..][1..] == routes[2..];
    assert VisibleRoutes(routes) == [routes[0], routes[2], routes[3]];
  }

  predicate UniqueKeys(routes: seq<Route>)
  {
    forall i, j :: 0 <= i < j < |routes| ==> routes[i].key != routes[j].key
  }

  /** The route the navigator shows, if `stateIndex` is in range. */
  function ActiveRoute(routes: seq<Route>, stateIndex: int): Option<Route>
  {
    if 0 <= stateIndex < |routes| then Some(routes[stateIndex]) else None
  }

  /**
   * The bar with the highlight on the tab whose route key is that of the
   * navigator's active route.
   */
  function Tabs(routes: seq<Route>, stateIndex: int): (tabs: seq<Tab>)
    ensures |tabs| == |VisibleRoutes(routes)|
    ensures forall i :: 0 <= i < |tabs| ==>
              tabs[i].route == VisibleRoutes(routes)[i] && tabs[i].icon == IconName(tabs[i].route.name) &&
              (tabs[i].focused <==> 0 <= stateIndex < |routes| && routes[stateIndex].key == tabs[i].route.key)
  {
    var visible := VisibleRoutes(routes);
    var active := ActiveRoute(routes, stateIndex);
    seq(|visible|, i requires 0 <= i < |visible| =>
      Tab(visible[i], IconName(visible[i].name), active.Some? && active.value.key == visible[i].key))
  }

  /** Under unique keys, a route with the active route's key is the active route. */
  lemma SameKeyIsActive(routes: seq<Route>, stateIndex: int, r: Route)
    requires UniqueKeys(routes) && 0 <= stateIndex < |routes|
    requires r in routes && r.key == routes[stateIndex].key
    ensures r == routes[stateIndex]
  {
    var k :| 0 <= k < |routes| && routes[k] == r;
    assert k == stateIndex;
  }

  /**
   * With distinct route keys, the corrected bar highlights exactly one tab,
   * that of the active route, when the active route has a tab, and none
   * when it is hidden.
   */
  lemma TabsHighlightActiveRoute(routes: seq<Route>, stateIndex: int)
    requires UniqueKeys(routes) && 0 <= stateIndex < |routes|
    ensures var tabs := Tabs(routes, stateIndex);
            (forall i :: 0 <= i < |tabs| && tabs[i].focused ==> tabs[i].route == routes[stateIndex]) &&
            (Shown(routes[stateIndex]) ==>
               exists i :: 0 <= i < |tabs| && tabs[i].focused && tabs[i].route == routes[stateIndex]) &&
            (!Shown(routes[stateIndex]) ==> forall i :: 0 <= i < |tabs| ==> !tabs[i].focused) &&
            (forall i, j :: 0 <= i < |tabs| && 0 <= j < |tabs| && tabs[i].focused && tabs[j].focused ==> i == j)
  {
    var tabs := Tabs(routes, stateIndex);
    var visible := VisibleRoutes(routes);
    assert Distinct(routes);
    FilterDistinct(Shown, routes);
    forall i | 0 <= i < |tabs| && tabs[i].focused ensures visible[i] == routes[stateIndex] {
      SameKeyIsActive(routes, stateIndex, visible[i]);
    }
    if Shown(routes[stateIndex]) {
      assert routes[stateIndex] in visible;
      var i :| 0 <= i < |visible| && visible[i] == routes[stateIndex];
      assert tabs[i].focused;
    }
  }
}

/** The bottom navigation bar (src/BottomNav.tsx): four fixed entries, each
    highlighted when the current path belongs to its route. */
module BottomNav {

  import opened Common

  /** One entry of `navItems`. */
  datatype NavItem = NavItem(
    key: string, labelEn: string, labelBn: string, icon: string, activeIcon: string, route: string)

  const Home := NavItem("home", "Home", "হোম", "home-outline", "home", "/")
  const Rewards := NavItem("rewards", "Rewards", "পুরস্কার", "gift-outline", "gift", "/rewards")
  const History := NavItem("history", "History", "ইতিহাস", "time-outline", "time", "/history")
  const Profile := NavItem("profile", "Profile", "প্রোফাইল", "person-outline", "person", "/profile")

  const NavItems: seq<NavItem> := [Home, Rewards, History, Profile]

  /** `s.startsWith(prefix)`. */
  predicate StartsWith(s: string, prefix: string) {
    |prefix| <= |s| && s[..|prefix|] == prefix
  }

  /** `isActive(route)` for the current `pathname`: the home route only for
      "/" and "/index"; any other route for itself and every path below it. */
  predicate IsActive(pathname: string, route: string)
    ensures pathname == route ==> IsActive(pathname, route)
    ensures route != "/" && IsActive(pathname, route) ==> StartsWith(pathname, route)
    ensures route == "/" && IsActive(pathname, route) ==> StartsWith(pathname, route) && |pathname| <= 6
  {
    if route == "/" then pathname == "/" || pathname == "/index"
    else pathname == route || StartsWith(pathname, route + "/")
  }

  /** The home route matches nothing but "/" and "/index": no prefix of a
      longer path activates it. */
  lemma HomeOnlyExact(pathname: string)
    ensures IsActive(pathname, "/") <==> pathname == "/" || pathname == "/index"
    ensures IsActive("/" + pathname, "/") ==> pathname == "" || pathname == "index"
  {
    if IsActive("/" + pathname, "/") && pathname != "" {
      assert ("/" + pathname)[1..] == pathname;
      assert "/index"[1..] == "index";
    }
  }

  /** Every path nested below a route activates it (e.g. "/history/7"). */
  lemma NestedPathActivates(route: string, rest: string)
    requires route != "/"
    ensures IsActive(route + "/" + rest, route)
  {
    assert (route + "/" + rest)[..|route + "/"|] == route + "/";
  }

  /** A path that extends a route by anything but a '/' does not activate
      it (e.g. "/rewardsX" and "/rewards"). */
  lemma SiblingPathInactive(route: string, c: char, rest: string)
    requires route != "/" && c != '/'
    ensures !IsActive(route + [c] + rest, route)
  {
    var p := route + [c] + rest;
    assert p[|route|] == c;
  }

  /** Two non-home routes of the same length that are both active are the
      same route. */
  lemma ActiveSameLength(pathname: string, r1: string, r2: string)
    requires r1 != "/" && r2 != "/" && |r1| == |r2|
    requires IsActive(pathname, r1) && IsActive(pathname, r2)
    ensures r1 == r2
  {
    assert pathname[..|r1|] == r1 by {
      if pathname != r1 { assert (r1 + "/")[..|r1|] == r1; }
    }
    assert pathname[..|r2|] == r2 by {
      if pathname != r2 { assert (r2 + "/")[..|r2|] == r2; }
    }
  }

  /** For every path, at most one of the four entries is highlighted. */
  lemma AtMostOneActive(pathname: string, i: int, j: int)
    requires 0 <= i < |NavItems| && 0 <= j < |NavItems|
    requires IsActive(pathname, NavItems[i].route) && IsActive(pathname, NavItems[j].route)
    ensures i == j
  {
    if i != 0 && j != 0 {
      ActiveSameLength(pathname, NavItems[i].route, NavItems[j].route);
    }
  }

  /** What one entry renders: its label, its icon, whether it is
      highlighted and the route it pushes when pressed. */
  datatype NavButton = NavButton(text: string, iconName: string, active: bool, target: string)

  function Button(item: NavItem, pathname: string, lang: Language): (b: NavButton)
    ensures b.active == IsActive(pathname, item.route) && b.target == item.route
    ensures b.iconName == if b.active then item.activeIcon else item.icon
    ensures lang == En ==> b.text == item.labelEn
    ensures lang == Bn ==> b.text == item.labelBn
    ensures item.icon != item.activeIcon ==> (b.iconName == item.activeIcon <==> b.active)
    ensures item.labelEn != item.labelBn ==> (b.text == item.labelBn <==> lang == Bn)
  {
    var active := IsActive(pathname, item.route);
    NavButton(Pick(lang, item.labelEn, item.labelBn), if active then item.activeIcon else item.icon, active, item.route)
  }

  /** The bar: one button per entry, in table order, at most one of them
      highlighted. */
  function Bar(pathname: string, lang: Language): (bar: seq<NavButton>)
    ensures |bar| == |NavItems|
    ensures forall i :: 0 <= i < |bar| ==> bar[i] == Button(NavItems[i], pathname, lang)
    ensures forall i, j :: 0 <= i < |bar| && 0 <= j < |bar| && bar[i].active && bar[j].active ==> i == j
  {
    var bar := seq(|NavItems|, i requires 0 <= i < |NavItems| => Button(NavItems[i], pathname, lang));
    assert forall i, j :: 0 <= i < |bar| && 0 <= j < |bar| && bar[i].active && bar[j].active ==> i == j by {
      forall i, j | 0 <= i < |bar| && 0 <= j < |bar| && bar[i].active && bar[j].active
        ensures i == j
      {
        AtMostOneActive(pathname, i, j);
      }
    }
    bar
  }

  /** Every label is the Bengali one exactly in Bengali, every icon is the
      active one exactly when its entry is active, and at most one button is
      highlighted. */
  lemma BarLabelsAndIcons(pathname: string, lang: Language, i: int)
    requires 0 <= i < |NavItems|
    ensures var b := Bar(pathname, lang)[i];
            && (b.text == NavItems[i].labelBn <==> lang == Bn)
            && (b.text == NavItems[i].labelEn <==> lang == En)
            && (b.iconName == NavItems[i].activeIcon <==> b.active)
            && (!b.active ==> b.iconName == NavItems[i].icon)
            && b.active == IsActive(pathname, NavItems[i].route)
            && (forall j :: 0 <= j < |NavItems| && Bar(pathname, lang)[j].active ==> (b.active <==> i == j))
  {
    forall j | 0 <= j < |NavItems| && Bar(pathname, lang)[j].active
      ensures Bar(pathname, lang)[i].active <==> i == j
    {
      if Bar(pathname, lang)[i].active {
        AtMostOneActive(pathname, i, j);
      }
    }
  }
}

/** The left navigation (apps/frontend/src/components/layout/left_nav.tsx): its item table, the
    feature-flag filter and the active-link test. */
module LeftNav {
  import opened Wrappers
  import UseFeatureFlags

  datatype NavItem = NavItem(title: string, href: string, description: Option<string>, featureFlag: Option<string>)

  /** The shipped `navItems` table. */
  const NavItems: seq<NavItem> := [
    NavItem("Home", "/", Some("Home"), None),
    NavItem("Grid Demo", "/grid_example", Some("Grid"), None),
    NavItem("SSE Demo", "/sse_demo", Some("SSE Demo"), None),
    NavItem("GraphQL Demo", "/graphql_example", Some("GraphQL Demo"), None),
    NavItem("Users", "/users", Some("User management"), Some("dev_pages")),
    NavItem("Settings", "/settings", Some("Application settings"), None)
  ]

  /** Number of placeholder rows drawn while flags load. */
  const SkeletonRows: nat := 7

  /** `!item.featureFlag` is false: the item names a (non-empty) flag. */
  predicate Gated(item: NavItem) {
    item.featureFlag.Some? && item.featureFlag.value != ""
  }

  /** The filter's test for one item. */
  predicate Visible(item: NavItem, isFlagEnabled: string -> bool) {
    !Gated(item) || isFlagEnabled(item.featureFlag.value)
  }

  /** `sub` is `items` with some elements dropped, order kept. */
  ghost predicate IsSubsequence<T>(sub: seq<T>, items: seq<T>)
    decreases |items|
  {
    |sub| == 0 || (|items| > 0 && ((sub[0] == items[0] && IsSubsequence(sub[1..], items[1..])) || IsSubsequence(sub, items[1..])))
  }

  /** visibleItems: ungated items always, gated items exactly when their flag is on, in table order. */
  function VisibleItems(items: seq<NavItem>, isFlagEnabled: string -> bool): (visible: seq<NavItem>)
    ensures IsSubsequence(visible, items)
    ensures forall item :: item in visible ==> Visible(item, isFlagEnabled)
    ensures forall item :: item in items && Visible(item, isFlagEnabled) ==> item in visible
  {
    if |items| == 0 then []
    else
      var rest := VisibleItems(items[1..], isFlagEnabled);
      if Visible(items[0], isFlagEnabled) then [items[0]] + rest else rest
  }

  /** isActive: the pathname is the item's href or lies below it. */
  function IsActive(pathname: string, href: string): (active: bool)
    ensures active <==> href <= pathname && (|pathname| == |href| || pathname[|href|] == '/')
  {
    pathname == href || href + "/" <= pathname
  }

  /** Home ("/") is active at the root only, not on other pages; a sibling path sharing a prefix
      does not activate an item. */
  lemma ActivePathExamples()
    ensures IsActive("/", "/") && !IsActive("/users", "/")
    ensures IsActive("/users/42", "/users") && !IsActive("/users2", "/users")
  {
    assert !IsActive("/users", "/") by {
      assert "/users"[1] == 'u';
    }
    assert !IsActive("/users2", "/users") by {
      assert "/users2"[6] == '2';
    }
  }

  /** In the shipped table only "Users" is gated, by dev_pages. */
  lemma ShippedTableGatesOnlyUsers()
    ensures forall i :: 0 <= i < |NavItems| ==> (Gated(NavItems[i]) <==> i == 4)
    ensures NavItems[4].title == "Users" && NavItems[4].featureFlag == Some("dev_pages")
  {
  }

  /** The filter distributes over concatenation. */
  lemma {:induction false} VisibleItemsAppend(a: seq<NavItem>, b: seq<NavItem>, isFlagEnabled: string -> bool)
    ensures VisibleItems(a + b, isFlagEnabled) == VisibleItems(a, isFlagEnabled) + VisibleItems(b, isFlagEnabled)
    decreases |a|
  {
    if |a| == 0 {
      assert a + b == b;
    } else {
      assert (a + b)[0] == a[0] && (a + b)[1..] == a[1..] + b;
      VisibleItemsAppend(a[1..], b, isFlagEnabled);
    }
  }

  /** A table without gated items is shown whole. */
  lemma {:induction false} UngatedAllVisible(items: seq<NavItem>, isFlagEnabled: string -> bool)
    requires forall i :: 0 <= i < |items| ==> !Gated(items[i])
    ensures VisibleItems(items, isFlagEnabled) == items
    decreases |items|
  {
    if |items| > 0 {
      UngatedAllVisible(items[1..], isFlagEnabled);
    }
  }

  /** With dev_pages off the other five items remain, in order; with it on all six are shown. */
  lemma ShippedTableVisibility(isFlagEnabled: string -> bool)
    ensures !isFlagEnabled("dev_pages") ==>
              VisibleItems(NavItems, isFlagEnabled) == NavItems[..4] + NavItems[5..]
    ensures isFlagEnabled("dev_pages") ==> VisibleItems(NavItems, isFlagEnabled) == NavItems
  {
    var f := isFlagEnabled;
    var users := NavItems[4];
    assert NavItems == NavItems[..4] + ([users] + NavItems[5..]);
    ShippedTableGatesOnlyUsers();
    UngatedAllVisible(NavItems[..4], f);
    UngatedAllVisible(NavItems[5..], f);
    VisibleItemsAppend(NavItems[..4], [users] + NavItems[5..], f);
    VisibleItemsAppend([users], NavItems[5..], f);
    assert [users][1..] == [];
    assert VisibleItems([users], f) == if f("dev_pages") then [users] else [];
  }

  /** What the component draws: placeholders while flags load, otherwise the visible links, each
      paired with whether it is active. */
  datatype NavRender = Skeleton(rows: nat) | Links(links: seq<(NavItem, bool)>)

  function RenderNav(items: seq<NavItem>, hook: UseFeatureFlags.FeatureFlagsHook, pathname: string): (r: NavRender)
    ensures hook.isLoading ==> r == Skeleton(SkeletonRows)
    ensures !hook.isLoading ==>
              var visible := VisibleItems(items, name => UseFeatureFlags.IsFlagEnabled(hook, name));
              r.Links? && |r.links| == |visible|
              && forall i :: 0 <= i < |r.links| ==>
                   r.links[i].0 == visible[i] && r.links[i].1 == IsActive(pathname, visible[i].href)
  {
    if hook.isLoading then Skeleton(SkeletonRows)
    else
      var visible := VisibleItems(items, name => UseFeatureFlags.IsFlagEnabled(hook, name));
      Links(seq(|visible|, i requires 0 <= i < |visible| => (visible[i], IsActive(pathname, visible[i].href))))
  }
}

/**
 * The navigation component (components/navigation/Navigation.tsx): the
 * section table, which sections are expanded, and which desktop link and
 * which mobile tab are marked active for the current pathname.
 */
module Navigation {
  import opened Wrappers
  import Strings

  datatype NavItem = NavItem(name: string, href: string, placeholder: bool)
  datatype NavSection = NavSection(name: string, items: seq<NavItem>)

  /** The three sections with their links. */
  const Sections: seq<NavSection> := [
    NavSection("Studio", [NavItem("Context Scan", "/studio/context-scan", true)]),
    NavSection("Gallery", [
      NavItem("Content Publisher", "/gallery/content-publisher", false),
      NavItem("Update Events", "/gallery/update-events", false),
      NavItem("Deadline Calendar", "/gallery/deadline-calendar", false)]),
    NavSection("Market", [
      NavItem("CRM", "/market/crm", true),
      NavItem("Outreach Agent", "/market/outreach-agent", true)])
  ]

  // ---------------------------------------------------------------------
  // Expanded sections
  // ---------------------------------------------------------------------

  /** Only the Gallery section starts expanded. */
  const InitialExpanded: seq<string> := ["Gallery"]

  /** `prev.filter((s) => s !== label)`. */
  function Without(list: seq<string>, name: string): (r: seq<string>)
    ensures name !in r
    ensures forall x :: x != name ==> (x in r <==> x in list)
    ensures |r| <= |list|
    decreases |list|
  {
    if list == [] then []
    else if list[0] == name then Without(list[1..], name)
    else [list[0]] + Without(list[1..], name)
  }

  /** `toggleSection`: drop every copy of a present name, append an absent one. */
  function ToggleSection(expanded: seq<string>, name: string): seq<string> {
    if name in expanded then Without(expanded, name) else expanded + [name]
  }

  /**
   * A toggle flips the name's membership and leaves every other name's
   * membership alone; an absent name goes to the end.
   */
  lemma ToggleFlips(expanded: seq<string>, name: string)
    ensures name in ToggleSection(expanded, name) <==> name !in expanded
    ensures forall x :: x != name ==> (x in ToggleSection(expanded, name) <==> x in expanded)
    ensures name !in expanded ==> ToggleSection(expanded, name) == expanded + [name]
  {
  }

  /** Filtering out a name that is not there changes nothing. */
  lemma {:induction false} WithoutAbsent(list: seq<string>, name: string)
    requires name !in list
    ensures Without(list, name) == list
    decreases |list|
  {
    if list != [] {
      WithoutAbsent(list[1..], name);
      assert list == [list[0]] + list[1..];
    }
  }

  /** Filtering distributes over concatenation. */
  lemma {:induction false} WithoutAppend(a: seq<string>, b: seq<string>, name: string)
    ensures Without(a + b, name) == Without(a, name) + Without(b, name)
    decreases |a|
  {
    if a == [] {
      assert a + b == b;
    } else {
      WithoutAppend(a[1..], b, name);
      assert (a + b)[0] == a[0] && (a + b)[1..] == a[1..] + b;
    }
  }

  /** Opening a closed section and closing it again restores the list exactly. */
  lemma ToggleTwice(expanded: seq<string>, name: string)
    requires name !in expanded
    ensures ToggleSection(ToggleSection(expanded, name), name) == expanded
  {
    assert name in expanded + [name];
    WithoutAppend(expanded, [name], name);
    WithoutAbsent(expanded, name);
    assert Without([name], name) == [];
  }

  /** The other labels keep their relative order: with the toggled name filtered out, before and after agree. */
  lemma ToggleKeepsOthersOrder(expanded: seq<string>, name: string)
    ensures Without(ToggleSection(expanded, name), name) == Without(expanded, name)
  {
    if name in expanded {
      WithoutAbsent(Without(expanded, name), name);
    } else {
      WithoutAppend(expanded, [name], name);
      assert Without([name], name) == [];
      assert Without(expanded, name) + [] == Without(expanded, name);
    }
  }

  /** The section's items are listed exactly when its name is in the expanded list. */
  predicate ShowsItems(expanded: seq<string>, section: NavSection) {
    section.name in expanded
  }

  /** At first only Gallery's items are listed; one toggle of Gallery hides them. */
  lemma InitialState()
    ensures ShowsItems(InitialExpanded, Sections[1])
    ensures !ShowsItems(InitialExpanded, Sections[0]) && !ShowsItems(InitialExpanded, Sections[2])
    ensures ToggleSection(InitialExpanded, "Gallery") == []
  {
    assert "Studio" != "Gallery" && "Market" != "Gallery";
  }

  // ---------------------------------------------------------------------
  // Active links and tabs
  // ---------------------------------------------------------------------

  /** `isActive`: a desktop link is active only on its own exact path. */
  predicate IsActive(pathname: string, href: string) {
    pathname == href
  }

  /** `item.href.split('/').slice(0, 2).join('/')`: the leading `/` and the first path segment. */
  function SectionPrefix(href: string): (prefix: string)
    ensures Strings.StartsWith(href, prefix)
  {
    var parts := Strings.Split(href, '/');
    var k := if |parts| < 2 then |parts| else 2;
    Strings.JoinSplit(href, '/');
    Strings.JoinPrefix(parts, k, "/");
    Strings.Join(parts[..k], "/")
  }

  /** For `/segment/rest` the prefix is `/segment`. */
  lemma SectionPrefixOf(segment: string, rest: string)
    requires '/' !in segment
    ensures SectionPrefix("/" + segment + "/" + rest) == "/" + segment
  {
    var href := "/" + segment + "/" + rest;
    assert href == [] + ['/'] + (segment + ['/'] + rest);
    Strings.SplitFirst([], segment + ['/'] + rest, '/');
    Strings.SplitFirst(segment, rest, '/');
    var parts := Strings.Split(href, '/');
    assert parts == [[]] + ([segment] + Strings.Split(rest, '/'));
    assert parts[..2] == [[], segment];
    assert Strings.Join([[], segment], "/") == [] + "/" + segment;
  }

  /** A mobile tab is active when the pathname starts with the prefix of one of its section's links. */
  predicate TabActive(pathname: string, section: NavSection) {
    exists i :: 0 <= i < |section.items| && Strings.StartsWith(pathname, SectionPrefix(section.items[i].href))
  }

  /** A mobile tab links to its section's first item (rendering fails on a section with no items). */
  function TabHref(section: NavSection): (href: Option<string>)
    ensures href.Some? <==> |section.items| > 0
    ensures href.Some? ==> href.value == section.items[0].href
  {
    if |section.items| == 0 then None else Some(section.items[0].href)
  }

  /** On the page of any of its links, a section's tab is active. */
  lemma ItemPageActivatesTab(section: NavSection, i: nat)
    requires i < |section.items|
    ensures TabActive(section.items[i].href, section)
  {
  }

  /** The tabs link to the first page of each section. */
  lemma TabTargets()
    ensures TabHref(Sections[0]) == Some("/studio/context-scan")
    ensures TabHref(Sections[1]) == Some("/gallery/content-publisher")
    ensures TabHref(Sections[2]) == Some("/market/crm")
  {
  }

  /** When the second `/` of a path is at `k`, the prefix is everything before it. */
  lemma SectionPrefixAt(href: string, k: nat)
    requires 0 < k < |href| && href[0] == '/' && href[k] == '/'
    requires forall j :: 1 <= j < k ==> href[j] != '/'
    ensures SectionPrefix(href) == href[..k]
  {
    var segment, rest := href[1..k], href[k + 1..];
    assert '/' !in segment by {
      forall j | 0 <= j < |segment| ensures segment[j] != '/' {
        assert segment[j] == href[j + 1];
      }
    }
    assert href == "/" + segment + "/" + rest;
    SectionPrefixOf(segment, rest);
    assert href[..k] == "/" + segment;
  }

  /** Every Gallery link has the prefix `/gallery`. */
  lemma GalleryPrefixes()
    ensures forall i :: 0 <= i < |Sections[1].items| ==> SectionPrefix(Sections[1].items[i].href) == "/gallery"
  {
    var items := Sections[1].items;
    forall i | 0 <= i < |items| ensures SectionPrefix(items[i].href) == "/gallery" {
      var href := items[i].href;
      assert href[..8] == "/gallery" && href[8] == '/';
      SectionPrefixAt(href, 8);
    }
  }

  /**
   * The Gallery tab is active exactly on paths starting with `/gallery`,
   * which includes paths such as `/gallery2` that belong to no Gallery page.
   */
  lemma GalleryTab(pathname: string)
    ensures TabActive(pathname, Sections[1]) <==> Strings.StartsWith(pathname, "/gallery")
  {
    GalleryPrefixes();
    if Strings.StartsWith(pathname, "/gallery") {
      assert Strings.StartsWith(pathname, SectionPrefix(Sections[1].items[0].href));
    }
  }

  /** No two links share an href, so at most one desktop link is active on any path. */
  lemma AtMostOneActiveLink(pathname: string, s: nat, i: nat, t: nat, j: nat)
    requires s < |Sections| && i < |Sections[s].items|
    requires t < |Sections| && j < |Sections[t].items|
    requires IsActive(pathname, Sections[s].items[i].href) && IsActive(pathname, Sections[t].items[j].href)
    ensures s == t && i == j
  {
  }
}

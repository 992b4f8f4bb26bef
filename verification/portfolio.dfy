/**
 * The portfolio gallery: a fixed list of projects, a category filter over
 * it, and a lightbox that shows one project of the filtered list at a time
 * and steps through that list cyclically.
 */
module Portfolio {
  import opened Wrappers
  import Cyclic

  datatype Project = Project(
    id: nat,
    title: string,
    category: string,
    style: string,
    budget: string,
    timeline: string)

  /** The filter buttons, in display order; `"All"` switches the filter off. */
  const Categories: seq<string> := ["All", "Living Room", "Kitchen", "Bedroom", "Bathroom", "Office"]

  /** The shipped projects (image URLs left out). */
  const Projects: seq<Project> := [
    Project(1, "Modern Minimalist Living", "Living Room", "Contemporary", "$50K - $75K", "8 weeks"),
    Project(2, "Luxury Kitchen Design", "Kitchen", "Modern Luxury", "$75K - $100K", "12 weeks"),
    Project(3, "Serene Master Bedroom", "Bedroom", "Scandinavian", "$25K - $40K", "6 weeks"),
    Project(4, "Executive Office Suite", "Office", "Industrial Modern", "$30K - $50K", "7 weeks"),
    Project(5, "Spa-Inspired Bathroom", "Bathroom", "Contemporary Zen", "$40K - $60K", "10 weeks"),
    Project(6, "Cozy Living Space", "Living Room", "Bohemian Modern", "$35K - $50K", "6 weeks"),
    Project(7, "Gourmet Kitchen", "Kitchen", "Transitional", "$60K - $85K", "14 weeks"),
    Project(8, "Kids Bedroom Paradise", "Bedroom", "Playful Modern", "$15K - $25K", "4 weeks"),
    Project(9, "Luxury Master Bath", "Bathroom", "Classic Luxury", "$55K - $80K", "12 weeks")
  ]

  /** `xs` can be obtained from `ys` by deleting elements, keeping the order of the rest. */
  predicate IsSubsequence<T(==)>(xs: seq<T>, ys: seq<T>)
    decreases |ys|
  {
    if |xs| == 0 then true
    else if |ys| == 0 then false
    else if xs[0] == ys[0] then IsSubsequence(xs[1..], ys[1..])
    else IsSubsequence(xs, ys[1..])
  }

  /**
   * `projects.filter(project => project.category === c)`: exactly the
   * projects of category `c`, each as often as in `ps`, in their original
   * order.
   */
  function OfCategory(ps: seq<Project>, c: string): (r: seq<Project>)
    ensures forall i :: 0 <= i < |r| ==> r[i].category == c
    ensures forall p {:trigger multiset(r)[p]} :: multiset(r)[p] == if p.category == c then multiset(ps)[p] else 0
    ensures IsSubsequence(r, ps)
  {
    if |ps| == 0 then []
    else
      var rest := OfCategory(ps[1..], c);
      assert ps == [ps[0]] + ps[1..];
      assert multiset(ps) == multiset{ps[0]} + multiset(ps[1..]);
      if ps[0].category == c then
        var r := [ps[0]] + rest;
        assert r[1..] == rest;
        assert multiset(r) == multiset{ps[0]} + multiset(rest);
        r
      else
        assert |rest| > 0 ==> rest[0] != ps[0];
        rest
  }

  /** `filteredProjects`: every project for `"All"`, else those of the selected category. */
  function FilteredProjects(selected: string): (r: seq<Project>)
    ensures selected == "All" ==> r == Projects
    ensures selected != "All" ==> forall i :: 0 <= i < |r| ==> r[i].category == selected
    ensures selected != "All" ==> forall p {:trigger multiset(r)[p]} :: multiset(r)[p] == if p.category == selected then multiset(Projects)[p] else 0
    ensures IsSubsequence(r, Projects)
  {
    if selected == "All" then
      IsSubsequenceOfSelf(Projects);
      Projects
    else
      OfCategory(Projects, selected)
  }

  lemma {:induction false} IsSubsequenceOfSelf<T>(xs: seq<T>)
    ensures IsSubsequence(xs, xs)
  {
    if |xs| > 0 {
      IsSubsequenceOfSelf(xs[1..]);
    }
  }

  /** A project of the selected category is among the filtered projects. */
  lemma FilteredContains(selected: string, k: nat)
    requires k < |Projects| && (selected == "All" || Projects[k].category == selected)
    ensures Projects[k] in FilteredProjects(selected)
  {
    var r := FilteredProjects(selected);
    if selected != "All" {
      assert Projects[k] in multiset(Projects);
      assert multiset(r)[Projects[k]] > 0;
    }
  }

  /**
   * Every filter button shows at least one project, so the lightbox's
   * modulus `filteredProjects.length` is never zero.
   */
  lemma FilterNeverEmpty(selected: string)
    requires selected in Categories
    ensures |FilteredProjects(selected)| > 0
  {
    var k: nat :=
      if selected == "All" then 0
      else if selected == "Living Room" then 0
      else if selected == "Kitchen" then 1
      else if selected == "Bedroom" then 2
      else if selected == "Office" then 3
      else 4;
    FilteredContains(selected, k);
  }

  /** `nextImage`: advance an open lightbox by one, wrapping around; a closed one stays closed. */
  function NextImage(lightbox: Option<nat>, n: nat): (r: Option<nat>)
    requires lightbox.Some? ==> n > 0
    ensures r.Some? <==> lightbox.Some?
    ensures lightbox.Some? && lightbox.value + 1 < n ==> r == Some(lightbox.value + 1)
    ensures lightbox.Some? && lightbox.value + 1 == n ==> r == Some(0)
    ensures lightbox.Some? ==> r.value < n
  {
    match lightbox
    case None => None
    case Some(i) => Some(Cyclic.Next(i, n))
  }

  /** `prevImage`: step an open lightbox back by one, wrapping around; a closed one stays closed. */
  function PrevImage(lightbox: Option<nat>, n: nat): (r: Option<nat>)
    requires lightbox.Some? ==> n > 0
    ensures r.Some? <==> lightbox.Some?
    ensures lightbox.Some? && 0 < lightbox.value <= n ==> r == Some(lightbox.value - 1)
    ensures lightbox.Some? && lightbox.value == 0 ==> r == Some(n - 1)
    ensures lightbox.Some? ==> r.value < n
  {
    match lightbox
    case None => None
    case Some(i) => Some(Cyclic.Prev(i, n))
  }

  /** Previous and next undo each other on an open, in-range lightbox and on a closed one. */
  lemma PrevNextImage(lightbox: Option<nat>, n: nat)
    requires lightbox.Some? ==> lightbox.value < n
    ensures PrevImage(NextImage(lightbox, n), n) == lightbox
    ensures NextImage(PrevImage(lightbox, n), n) == lightbox
  {
    if lightbox.Some? {
      Cyclic.PrevNext(lightbox.value, n);
      Cyclic.NextPrev(lightbox.value, n);
    }
  }

  /** `k` clicks on "next". */
  function NextImageIter(lightbox: Option<nat>, n: nat, k: nat): Option<nat>
    requires lightbox.Some? ==> n > 0
  {
    if k == 0 then lightbox else NextImage(NextImageIter(lightbox, n, k - 1), n)
  }

  lemma {:induction false} NextImageIterIsNextIter(lightbox: Option<nat>, n: nat, k: nat)
    requires lightbox.Some? ==> n > 0
    ensures lightbox.None? ==> NextImageIter(lightbox, n, k) == None
    ensures lightbox.Some? ==> NextImageIter(lightbox, n, k) == Some(Cyclic.NextIter(lightbox.value, n, k))
  {
    if k > 0 {
      NextImageIterIsNextIter(lightbox, n, k - 1);
    }
  }

  /** Clicking "next" as many times as there are projects shown comes back to the same project. */
  lemma NextImagePeriod(lightbox: Option<nat>, n: nat)
    requires lightbox.Some? ==> lightbox.value < n
    ensures NextImageIter(lightbox, n, n) == lightbox
  {
    NextImageIterIsNextIter(lightbox, n, n);
    if lightbox.Some? {
      Cyclic.NextPeriod(lightbox.value, n);
    }
  }

  /** The gallery's state: the selected filter button and the lightbox index, `null` when closed. */
  datatype PortfolioState = PortfolioState(selectedCategory: string, lightboxImage: Option<nat>)

  const InitialPortfolio := PortfolioState("All", None)

  /** The projects the grid shows. */
  function Shown(s: PortfolioState): seq<Project> {
    FilteredProjects(s.selectedCategory)
  }

  /** The selected category is one of the buttons. */
  predicate WellFormed(s: PortfolioState) {
    s.selectedCategory in Categories
  }

  /**
   * A well-formed state whose open lightbox points into the filtered list,
   * so that `filteredProjects[lightboxImage]` exists when the lightbox renders.
   */
  predicate Valid(s: PortfolioState) {
    WellFormed(s) && (s.lightboxImage.Some? ==> s.lightboxImage.value < |Shown(s)|)
  }

  /** What the rendered gallery lets the user do. */
  datatype Event =
    | SelectCategory(button: nat)  // a category button, by position
    | OpenItem(index: nat)         // a grid item, by position in the filtered list
    | Next                         // the lightbox's right arrow
    | Prev                         // the lightbox's left arrow
    | Close                        // the close button or the dark backdrop
    | OpenLeaving(button: nat, index: nat)
      // a grid item still fading out after a category switch: the item at
      // `index` of the list under category button `button`
    | ArrowLeaving(forward: bool, button: nat, index: nat)
      // an arrow of the lightbox still fading out after it closed, which was
      // last rendered open on `index` of the list under category button `button`

  /**
   * The grid is an `AnimatePresence` list keyed by project id, with a 0.5 s
   * exit animation. After a category switch, an item whose project the new
   * list drops stays on screen while it fades out, and keeps the click
   * handler of its last render, which opens the lightbox at its index in the
   * old list.
   */
  predicate Leaving(s: PortfolioState, button: nat, index: nat) {
    button < |Categories| && index < |FilteredProjects(Categories[button])| &&
    FilteredProjects(Categories[button])[index] !in Shown(s)
  }

  /**
   * The lightbox is an `AnimatePresence` child too. After it closes it fades
   * out with the handlers of its last render, so its arrows still run
   * `prevImage` and `nextImage` over the index and the list it showed then.
   * Its close targets set `null` again, which changes nothing.
   */
  predicate Closing(s: PortfolioState, button: nat, index: nat) {
    s.lightboxImage.None? && button < |Categories| && index < |FilteredProjects(Categories[button])|
  }

  /** The lightbox a fading arrow opens: one step from the index it was last rendered on. */
  function FadingArrow(forward: bool, button: nat, index: nat): Option<nat>
    requires button < |Categories| && index < |FilteredProjects(Categories[button])|
  {
    var n := |FilteredProjects(Categories[button])|;
    if forward then NextImage(Some(index), n) else PrevImage(Some(index), n)
  }

  /**
   * One user event, as the page handles it. The lightbox is a full-screen
   * overlay, so while it is open the mouse reaches only its arrows and close
   * targets. The grid items are plain elements that only a click activates,
   * but the category buttons are real buttons that stay in the tab order
   * under the overlay, and activating one from the keyboard runs
   * `setSelectedCategory` with the lightbox still open. Once the lightbox
   * has faded out its arrows and close targets are gone, but while it fades
   * an arrow reopens it one step from its old index over its old list. A
   * grid item that is fading out opens the lightbox at its old index. In
   * both cases the current list need not have that index. An event without
   * a target leaves the state alone.
   */
  function StepAsWritten(s: PortfolioState, e: Event): (r: PortfolioState)
    requires Valid(s)
    ensures WellFormed(r)
    ensures e.SelectCategory? && e.button < |Categories| ==>
      r.selectedCategory == Categories[e.button] && r.lightboxImage == s.lightboxImage
    ensures e.OpenLeaving? && s.lightboxImage.None? && Leaving(s, e.button, e.index) ==>
      r.selectedCategory == s.selectedCategory && r.lightboxImage == Some(e.index)
    ensures e.OpenLeaving? && !(s.lightboxImage.None? && Leaving(s, e.button, e.index)) ==> r == s
    ensures e.ArrowLeaving? && Closing(s, e.button, e.index) ==>
      r.selectedCategory == s.selectedCategory && r.lightboxImage == FadingArrow(e.forward, e.button, e.index)
    ensures e.ArrowLeaving? && !Closing(s, e.button, e.index) ==> r == s
    ensures !e.SelectCategory? && !e.OpenLeaving? && !e.ArrowLeaving? ==> r == Step(s, e)
  {
    match e
    case SelectCategory(b) =>
      if b < |Categories| then s.(selectedCategory := Categories[b]) else s
    case OpenLeaving(b, k) =>
      if s.lightboxImage.None? && Leaving(s, b, k) then s.(lightboxImage := Some(k)) else s
    case ArrowLeaving(f, b, k) =>
      if Closing(s, b, k) then s.(lightboxImage := FadingArrow(f, b, k)) else s
    case _ =>
      Step(s, e)
  }

  /**
   * The events on which the page's handlers and the corrected ones part:
   * category selections, and clicks on fading grid items and lightbox arrows.
   */
  predicate Fragile(e: Event) {
    e.SelectCategory? || e.OpenLeaving? || e.ArrowLeaving?
  }

  /**
   * The events of the page as written, until a render throws: once the
   * lightbox index is past the end of the filtered list, reading
   * `filteredProjects[lightboxImage].image` fails and nothing further runs.
   * Without category selections and clicks on fading items and arrows, the
   * page runs as the corrected handlers do, so only those events can make it
   * throw.
   */
  function RunAsWritten(s: PortfolioState, events: seq<Event>): (r: PortfolioState)
    requires Valid(s)
    ensures WellFormed(r)
    ensures (forall k :: 0 <= k < |events| ==> !Fragile(events[k])) ==> r == Run(s, events)
    ensures Valid(r) || exists k :: 0 <= k < |events| && Fragile(events[k])
    decreases |events|
  {
    if |events| == 0 then s
    else
      var t := StepAsWritten(s, events[0]);
      StepsAgree(s, events[0]);
      StepValid(s, events[0]);
      if Valid(t) then
        var r := RunAsWritten(t, events[1..]);
        assert forall k :: 0 <= k < |events| - 1 ==> events[1..][k] == events[k + 1];
        r
      else t
  }

  /**
   * Switching from "All" to "Office" and then clicking the last project's
   * item while it fades out opens the lightbox on index 8 of a one-project
   * list: the next render reads past the end of `filteredProjects`.
   */
  lemma LeavingItemClickCrashes(events: seq<Event>)
    requires events == [SelectCategory(5), OpenLeaving(0, 8)]
    ensures RunAsWritten(InitialPortfolio, events) == PortfolioState("Office", Some(8))
    ensures !Valid(PortfolioState("Office", Some(8)))
  {
    SelectFromAll();
    LeavingLastReopens();
    RunAsWrittenTwo(InitialPortfolio, PortfolioState("Office", None), PortfolioState("Office", Some(8)), events);
  }

  /** The last item under "All", fading out after a switch to "Office", opens the lightbox on index 8. */
  lemma LeavingLastReopens()
    ensures !Valid(PortfolioState("Office", Some(8)))
    ensures StepAsWritten(PortfolioState("Office", None), OpenLeaving(0, 8)) == PortfolioState("Office", Some(8))
  {
    LastLeavesOffice();
    FilteredOffice();
  }

  /** After a switch from "All" to "Office", the last item under "All" is fading out. */
  lemma LastLeavesOffice()
    ensures Leaving(PortfolioState("Office", None), 0, 8)
  {
    FilteredOffice();
    assert Projects[8] != Projects[3];
  }

  /**
   * Opening the last project under "All" and then activating the "Office"
   * button from the keyboard leaves the lightbox on index 8 of a one-project
   * list: the next render reads past the end of `filteredProjects`.
   */
  lemma KeyboardFilterSwitchCrashes(events: seq<Event>)
    requires events == [OpenItem(8), SelectCategory(5)]
    ensures RunAsWritten(InitialPortfolio, events) == PortfolioState("Office", Some(8))
    ensures !Valid(PortfolioState("Office", Some(8)))
  {
    OpenLast();
    LeavingLastReopens();
    assert StepAsWritten(PortfolioState("All", Some(8)), SelectCategory(5)) == PortfolioState("Office", Some(8));
    RunAsWrittenTwo(InitialPortfolio, PortfolioState("All", Some(8)), PortfolioState("Office", Some(8)), events);
  }

  /**
   * Closing the lightbox on the last project under "All", activating
   * "Office" from the keyboard while the lightbox fades, and clicking its
   * left arrow reopens the lightbox on index 7 of a one-project list. Closing
   * the lightbox on a category selection is therefore not enough on its own:
   * the fading lightbox must not take clicks either.
   */
  lemma FadingArrowCrashes(events: seq<Event>)
    requires events == [OpenItem(8), Close, SelectCategory(5), ArrowLeaving(false, 0, 8)]
    ensures RunAsWritten(InitialPortfolio, events) == PortfolioState("Office", Some(7))
    ensures !Valid(PortfolioState("Office", Some(7)))
  {
    OpenLast();
    SelectFromAll();
    FadingLeftArrowReopens();
    FilteredOffice();
    RunAsWrittenFour(InitialPortfolio, PortfolioState("All", Some(8)), PortfolioState("All", None),
      PortfolioState("Office", None), PortfolioState("Office", Some(7)), events);
  }

  /** Two events of which the last makes the page throw. */
  lemma RunAsWrittenTwo(s0: PortfolioState, s1: PortfolioState, r: PortfolioState, events: seq<Event>)
    requires |events| == 2 && Valid(s0) && Valid(s1) && !Valid(r)
    requires StepAsWritten(s0, events[0]) == s1 && StepAsWritten(s1, events[1]) == r
    ensures RunAsWritten(s0, events) == r
  {
    RunAsWrittenFirst(s0, events, s1);
    RunAsWrittenFirst(s1, events[1..], r);
  }

  /** Four events of which the last makes the page throw. */
  lemma RunAsWrittenFour(s0: PortfolioState, s1: PortfolioState, s2: PortfolioState,
                         s3: PortfolioState, r: PortfolioState, events: seq<Event>)
    requires |events| == 4 && Valid(s0) && Valid(s1) && Valid(s2) && Valid(s3) && !Valid(r)
    requires StepAsWritten(s0, events[0]) == s1 && StepAsWritten(s1, events[1]) == s2
    requires StepAsWritten(s2, events[2]) == s3 && StepAsWritten(s3, events[3]) == r
    ensures RunAsWritten(s0, events) == r
  {
    RunAsWrittenFirst(s0, events, s1);
    RunAsWrittenFirst(s1, events[1..], s2);
    RunAsWrittenFirst(s2, events[1..][1..], s3);
    RunAsWrittenFirst(s3, events[1..][1..][1..], r);
  }

  /** Running the page's handlers peels off the first event. */
  lemma RunAsWrittenFirst(s: PortfolioState, events: seq<Event>, t: PortfolioState)
    requires Valid(s) && |events| > 0 && StepAsWritten(s, events[0]) == t
    ensures Valid(t) ==> RunAsWritten(s, events) == RunAsWritten(t, events[1..])
    ensures !Valid(t) ==> RunAsWritten(s, events) == t
  {
  }

  lemma OpenLast()
    ensures Valid(InitialPortfolio) && Valid(PortfolioState("All", Some(8)))
    ensures StepAsWritten(InitialPortfolio, OpenItem(8)) == PortfolioState("All", Some(8))
    ensures StepAsWritten(PortfolioState("All", Some(8)), Close) == PortfolioState("All", None)
  {
    assert |Shown(InitialPortfolio)| == 9;
  }

  lemma SelectFromAll()
    ensures Valid(PortfolioState("All", None)) && Valid(PortfolioState("Office", None))
    ensures StepAsWritten(PortfolioState("All", None), SelectCategory(5)) == PortfolioState("Office", None)
  {
  }

  /** The left arrow of a lightbox that faded out on index 8 under "All" reopens it on index 7. */
  lemma FadingLeftArrowReopens()
    ensures Valid(PortfolioState("Office", None))
    ensures StepAsWritten(PortfolioState("Office", None), ArrowLeaving(false, 0, 8)) == PortfolioState("Office", Some(7))
  {
    var s3 := PortfolioState("Office", None);
    assert FadingArrow(false, 0, 8) == Some(7);
    assert Closing(s3, 0, 8);
  }

  /**
   * One user event, with a category selection that also closes the
   * lightbox, so that no selection can leave an index behind that the new
   * list does not have, and with grid items and a lightbox that take no
   * clicks while they fade out. Every other event is handled as the page
   * handles it.
   */
  function Step(s: PortfolioState, e: Event): (r: PortfolioState)
    requires Valid(s)
    ensures WellFormed(r)
    ensures e.SelectCategory? && e.button < |Categories| ==>
      r.selectedCategory == Categories[e.button] && r.lightboxImage.None?
    ensures e.SelectCategory? && e.button >= |Categories| ==> r == s
    ensures e.OpenItem? ==>
      if s.lightboxImage.None? && e.index < |Shown(s)| then r == s.(lightboxImage := Some(e.index)) else r == s
    ensures !e.SelectCategory? ==> r.selectedCategory == s.selectedCategory
    ensures (e.Next? || e.Prev?) ==> (r.lightboxImage.Some? <==> s.lightboxImage.Some?)
    ensures e.Next? ==> r.lightboxImage == NextImage(s.lightboxImage, |Shown(s)|)
    ensures e.Prev? ==> r.lightboxImage == PrevImage(s.lightboxImage, |Shown(s)|)
    ensures e.Close? ==> r.lightboxImage.None?
    ensures e.OpenLeaving? ==> r == s
    ensures e.ArrowLeaving? ==> r == s
  {
    var n := |Shown(s)|;
    match e
    case SelectCategory(b) =>
      if b < |Categories| then PortfolioState(Categories[b], None) else s
    case OpenItem(k) =>
      if s.lightboxImage.None? && k < n then s.(lightboxImage := Some(k)) else s
    case Next =>
      s.(lightboxImage := NextImage(s.lightboxImage, n))
    case Prev =>
      s.(lightboxImage := PrevImage(s.lightboxImage, n))
    case Close =>
      s.(lightboxImage := None)
    case OpenLeaving(_, _) =>
      s
    case ArrowLeaving(_, _, _) =>
      s
  }

  /**
   * The two handlers differ exactly on a category selection while the
   * lightbox is open, which is the keyboard path, on a click on a fading grid
   * item while the lightbox is closed, and on a click on an arrow of the
   * fading lightbox.
   */
  lemma StepsAgree(s: PortfolioState, e: Event)
    requires Valid(s)
    ensures StepAsWritten(s, e) == Step(s, e) <==>
      !(e.SelectCategory? && e.button < |Categories| && s.lightboxImage.Some?) &&
      !(e.OpenLeaving? && s.lightboxImage.None? && Leaving(s, e.button, e.index)) &&
      !(e.ArrowLeaving? && Closing(s, e.button, e.index))
  {
  }

  /** Every user event keeps the selection on a button and an open lightbox on a shown project. */
  lemma StepValid(s: PortfolioState, e: Event)
    requires Valid(s)
    ensures Valid(Step(s, e))
  {
    var n := |Shown(s)|;
    match e
    case SelectCategory(b) =>
      if b < |Categories| {
        assert Step(s, e) == PortfolioState(Categories[b], None);
        SelectValid(b);
      } else {
        assert Step(s, e) == s;
      }
    case OpenItem(k) =>
      if s.lightboxImage.None? && k < n {
        assert Step(s, e) == s.(lightboxImage := Some(k));
        OpenValid(s, k);
      } else {
        assert Step(s, e) == s;
      }
    case Next =>
      assert Step(s, e) == s.(lightboxImage := NextImage(s.lightboxImage, n));
      NextValid(s);
    case Prev =>
      assert Step(s, e) == s.(lightboxImage := PrevImage(s.lightboxImage, n));
      PrevValid(s);
    case Close =>
      assert Step(s, e) == s.(lightboxImage := None);
    case OpenLeaving(_, _) =>
      assert Step(s, e) == s;
    case ArrowLeaving(_, _, _) =>
      assert Step(s, e) == s;
  }

  lemma SelectValid(b: nat)
    requires b < |Categories|
    ensures Valid(PortfolioState(Categories[b], None))
  {
  }

  lemma OpenValid(s: PortfolioState, k: nat)
    requires Valid(s) && k < |Shown(s)|
    ensures Valid(s.(lightboxImage := Some(k)))
  {
  }

  lemma NextValid(s: PortfolioState)
    requires Valid(s)
    ensures Valid(s.(lightboxImage := NextImage(s.lightboxImage, |Shown(s)|)))
  {
  }

  lemma PrevValid(s: PortfolioState)
    requires Valid(s)
    ensures Valid(s.(lightboxImage := PrevImage(s.lightboxImage, |Shown(s)|)))
  {
  }

  /** The state after a sequence of user events, with the corrected handlers. */
  function Run(s: PortfolioState, events: seq<Event>): (r: PortfolioState)
    requires Valid(s)
    ensures Valid(r)
    decreases |events|
  {
    if |events| == 0 then s
    else
      StepValid(s, events[0]);
      Run(Step(s, events[0]), events[1..])
  }

  /**
   * With the corrected handlers, over every event modelled here (clicks,
   * category buttons activated from the keyboard, and clicks on fading grid
   * items and lightbox arrows), an open lightbox always has a project to show.
   */
  lemma ReachableLightboxShowsProject(events: seq<Event>)
    ensures var s := Run(InitialPortfolio, events);
      s.lightboxImage.Some? ==> 0 < |Shown(s)| && s.lightboxImage.value < |Shown(s)|
  {
    assert Valid(InitialPortfolio);
  }

  /** Filtering a suffix peels off its first project. */
  lemma OfCategoryStep(ps: seq<Project>, k: nat, c: string)
    requires k < |ps|
    ensures OfCategory(ps[k..], c) == Keep(ps[k], c) + OfCategory(ps[k + 1..], c)
  {
    assert ps[k..][1..] == ps[k + 1..];
  }

  /** The project `p` alone when it has category `c`, nothing otherwise. */
  function Keep(p: Project, c: string): seq<Project> {
    if p.category == c then [p] else []
  }

  /** Filtering nine projects, spelled out one project at a time. */
  lemma FilterNine(ps: seq<Project>, c: string)
    requires |ps| == 9
    ensures OfCategory(ps, c) ==
      Keep(ps[0], c) + (Keep(ps[1], c) + (Keep(ps[2], c) + (Keep(ps[3], c) + (Keep(ps[4], c) +
      (Keep(ps[5], c) + (Keep(ps[6], c) + (Keep(ps[7], c) + Keep(ps[8], c))))))))
  {
    assert ps[9..] == [];
    assert OfCategory(ps[9..], c) == [];
    OfCategoryStep(ps, 8, c);
    assert OfCategory(ps[8..], c) == Keep(ps[8], c);
    OfCategoryStep(ps, 7, c);
    OfCategoryStep(ps, 6, c);
    OfCategoryStep(ps, 5, c);
    OfCategoryStep(ps, 4, c);
    OfCategoryStep(ps, 3, c);
    OfCategoryStep(ps, 2, c);
    OfCategoryStep(ps, 1, c);
    OfCategoryStep(ps, 0, c);
    assert ps[0..] == ps;
  }

  /** "Living Room" shows projects 1 and 6, in that order. */
  lemma FilteredLivingRoom()
    ensures FilteredProjects("Living Room") == [Projects[0], Projects[5]]
  {
    var c := "Living Room";
    FilterNine(Projects, c);
    assert Keep(Projects[0], c) == [Projects[0]];
    assert Keep(Projects[1], c) == [];
    assert Keep(Projects[2], c) == [];
    assert Keep(Projects[3], c) == [];
    assert Keep(Projects[4], c) == [];
    assert Keep(Projects[5], c) == [Projects[5]];
    assert Keep(Projects[6], c) == [];
    assert Keep(Projects[7], c) == [];
    assert Keep(Projects[8], c) == [];
  }

  /** "Kitchen" shows projects 2 and 7, in that order. */
  lemma FilteredKitchen()
    ensures FilteredProjects("Kitchen") == [Projects[1], Projects[6]]
  {
    var c := "Kitchen";
    FilterNine(Projects, c);
    assert Keep(Projects[0], c) == [];
    assert Keep(Projects[1], c) == [Projects[1]];
    assert Keep(Projects[2], c) == [];
    assert Keep(Projects[3], c) == [];
    assert Keep(Projects[4], c) == [];
    assert Keep(Projects[5], c) == [];
    assert Keep(Projects[6], c) == [Projects[6]];
    assert Keep(Projects[7], c) == [];
    assert Keep(Projects[8], c) == [];
  }

  /** "Bedroom" shows projects 3 and 8, in that order. */
  lemma FilteredBedroom()
    ensures FilteredProjects("Bedroom") == [Projects[2], Projects[7]]
  {
    var c := "Bedroom";
    FilterNine(Projects, c);
    assert Keep(Projects[0], c) == [];
    assert Keep(Projects[1], c) == [];
    assert Keep(Projects[2], c) == [Projects[2]];
    assert Keep(Projects[3], c) == [];
    assert Keep(Projects[4], c) == [];
    assert Keep(Projects[5], c) == [];
    assert Keep(Projects[6], c) == [];
    assert Keep(Projects[7], c) == [Projects[7]];
    assert Keep(Projects[8], c) == [];
  }

  /** "Bathroom" shows projects 5 and 9, in that order. */
  lemma FilteredBathroom()
    ensures FilteredProjects("Bathroom") == [Projects[4], Projects[8]]
  {
    var c := "Bathroom";
    FilterNine(Projects, c);
    assert Keep(Projects[0], c) == [];
    assert Keep(Projects[1], c) == [];
    assert Keep(Projects[2], c) == [];
    assert Keep(Projects[3], c) == [];
    assert Keep(Projects[4], c) == [Projects[4]];
    assert Keep(Projects[5], c) == [];
    assert Keep(Projects[6], c) == [];
    assert Keep(Projects[7], c) == [];
    assert Keep(Projects[8], c) == [Projects[8]];
  }

  /** "Office" shows project 4 alone. */
  lemma FilteredOffice()
    ensures FilteredProjects("Office") == [Projects[3]]
  {
    var c := "Office";
    FilterNine(Projects, c);
    assert Keep(Projects[0], c) == [];
    assert Keep(Projects[1], c) == [];
    assert Keep(Projects[2], c) == [];
    assert Keep(Projects[3], c) == [Projects[3]];
    assert Keep(Projects[4], c) == [];
    assert Keep(Projects[5], c) == [];
    assert Keep(Projects[6], c) == [];
    assert Keep(Projects[7], c) == [];
    assert Keep(Projects[8], c) == [];
  }
}

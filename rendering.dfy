/** Rendering in abstract form: the card `createProjectCard` builds for a project, the
    container `renderProjects` fills, and the technology filter `filterProjects` applies to the
    rendered cards. Markup, styling and animation classes are not modelled; a card keeps the
    values the markup shows. */
module Rendering {
  import opened Wrappers
  import opened Text
  import opened Projects
  import Viewport

  /** What a project card shows: image, title, description, one tag per technology, the
      GitHub and live-demo links when present, and its animation delay in milliseconds. */
  datatype Card = Card(
    image: string,
    title: string,
    description: string,
    tags: seq<string>,
    githubLink: Option<string>,
    liveLink: Option<string>,
    delay: int)

  /** A link is shown when the field is a non-empty string (JavaScript truthiness). */
  predicate HasLink(link: Option<string>) {
    link.Some? && link.value != []
  }

  /** The per-card delay step: 50 ms on a window narrower than 768 pixels, 100 ms otherwise. */
  function DelayStep(width: int): int {
    if width < 768 then 50 else 100
  }

  /** `createProjectCard(project, index)` */
  function CreateCard(p: Project, index: nat, width: int): (c: Card)
    ensures |c.tags| == |p.technologies| && forall i :: 0 <= i < |c.tags| ==> c.tags[i] == p.technologies[i]
    ensures c.githubLink.Some? <==> HasLink(p.github)
    ensures c.githubLink.Some? ==> c.githubLink == p.github
    ensures c.liveLink.Some? <==> HasLink(p.live)
    ensures c.liveLink.Some? ==> c.liveLink == p.live
    ensures c.image == p.image && c.title == p.title && c.description == p.description
    ensures c.delay == index * DelayStep(width) && c.delay >= 0
  {
    Card(
      p.image, p.title, p.description, p.technologies,
      if HasLink(p.github) then p.github else None,
      if HasLink(p.live) then p.live else None,
      index * DelayStep(width))
  }

  /** The cards `renderProjects` appends: one per project, in store order. */
  function RenderCards(ps: seq<Project>, width: int): (cards: seq<Card>)
    ensures |cards| == |ps|
    ensures forall i :: 0 <= i < |ps| ==> cards[i] == CreateCard(ps[i], i, width)
  {
    seq(|ps|, i requires 0 <= i < |ps| => CreateCard(ps[i], i, width))
  }

  /** Cards animate in store order: the first starts at once and every later card starts
      strictly later than every earlier one. */
  lemma DelaysIncrease(ps: seq<Project>, width: int)
    ensures var cards := RenderCards(ps, width);
      && (|cards| > 0 ==> cards[0].delay == 0)
      && forall i, j :: 0 <= i < j < |cards| ==> cards[i].delay < cards[j].delay
  {
    var cards := RenderCards(ps, width);
    forall i, j | 0 <= i < j < |cards| ensures cards[i].delay < cards[j].delay {
      assert cards[j].delay - cards[i].delay == (j - i) * DelayStep(width);
    }
  }

  /** The card delay uses its own "narrow" test (below 768) rather than `utils.isMobile`
      (768 or below): at exactly 768 pixels the window counts as mobile, yet cards get the
      wider step. */
  lemma DelayStepAt768()
    ensures Viewport.IsMobile(768) && DelayStep(768) == 100 && DelayStep(767) == 50
  {
  }

  // ---------------------------------------------------------------------------------------
  // The technology filter

  /** The tags' text run together, as `.join('')` puts them in the markup. */
  function Concat(tags: seq<string>): string {
    if tags == [] then [] else tags[0] + Concat(tags[1..])
  }

  lemma {:induction false} ConcatAround(tags: seq<string>, k: int)
    requires 0 <= k < |tags|
    ensures Concat(tags) == Concat(tags[..k]) + tags[k] + Concat(tags[k + 1..])
  {
    if k > 0 {
      ConcatAround(tags[1..], k - 1);
      assert tags[1..][..k - 1] == tags[1..k];
      assert tags[1..][k..] == tags[k + 1..];
      assert tags[..k] == [tags[0]] + tags[1..k];
      assert Concat(tags[..k]) == tags[0] + Concat(tags[1..k]);
    } else {
      assert tags[..0] == [];
    }
  }

  /** The white space the card template puts around the tags inside the technologies box. */
  const TechLead: string := "\n" + "                    "
  const TechTrail: string := "\n" + "                "

  /** The `textContent` of a card's technologies box. */
  function TechText(c: Card): string {
    TechLead + Concat(c.tags) + TechTrail
  }

  /** A card stays visible under `filter` iff the filter is 'all' or the lower-cased
      technology text contains the lower-cased filter. */
  predicate Shows(filter: string, c: Card)
    ensures Shows(filter, c) && filter != "all" ==> |filter| <= |TechText(c)|
  {
    filter == "all" || Contains(ToLower(TechText(c)), ToLower(filter))
  }

  /** The visibility `filterProjects` leaves on each card, in order. */
  function Visibility(filter: string, cards: seq<Card>): (v: seq<bool>)
    ensures |v| == |cards|
    ensures forall i :: 0 <= i < |cards| ==> v[i] == Shows(filter, cards[i])
  {
    seq(|cards|, i requires 0 <= i < |cards| => Shows(filter, cards[i]))
  }

  function AllShown(n: nat): (v: seq<bool>)
    ensures |v| == n && forall i :: 0 <= i < n ==> v[i]
  {
    seq(n, _ => true)
  }

  /** The 'all' filter and the empty filter both show every card. */
  lemma FilterAllShowsEverything(cards: seq<Card>)
    ensures Visibility("all", cards) == AllShown(|cards|)
    ensures Visibility("", cards) == AllShown(|cards|)
  {
    forall i | 0 <= i < |cards| ensures Shows("", cards[i]) {
      assert OccursAt(ToLower(TechText(cards[i])), ToLower(""), 0);
    }
  }

  /** A filter found inside one tag (ignoring ASCII case) keeps the card visible. */
  lemma TagMatchShows(filter: string, c: Card, k: int)
    requires 0 <= k < |c.tags| && Contains(ToLower(c.tags[k]), ToLower(filter))
    ensures Shows(filter, c)
  {
    ConcatAround(c.tags, k);
    var before, after := TechLead + Concat(c.tags[..k]), Concat(c.tags[k + 1..]) + TechTrail;
    assert TechText(c) == before + c.tags[k] + after;
    ToLowerConcat(before, c.tags[k]);
    ToLowerConcat(before + c.tags[k], after);
    ContainsInMiddle(ToLower(before), ToLower(c.tags[k]), ToLower(after), ToLower(filter));
  }

  /** Matching runs over the joined text, so a filter can match across two tags that do not
      contain it on their own: "ondj" shows a card tagged Python and Django. */
  lemma MatchAcrossTags(c: Card)
    requires c.tags == ["Python", "Django"]
    ensures Shows("ondj", c)
    ensures !Contains(ToLower(c.tags[0]), "ondj") && !Contains(ToLower(c.tags[1]), "ondj")
  {
    var low := ToLower(TechText(c));
    assert Concat(c.tags[2..]) == [];
    assert Concat(c.tags[1..]) == "Django" + Concat(c.tags[2..]);
    assert Concat(c.tags) == "PythonDjango";
    assert TechText(c) == TechLead + "PythonDjango" + TechTrail;
    assert |TechLead| == 21;
    assert low[21 + 4..21 + 8] == "ondj";
    assert OccursAt(low, ToLower("ondj"), 25);
    assert ToLower("Python") == "python";
    assert ToLower("Django") == "django";
    forall i | OccursAt("python", "ondj", i) ensures false {
      OccursAtHead("python", "ondj", i);
    }
    forall i | OccursAt("django", "ondj", i) ensures false {
      OccursAtHead("django", "ondj", i);
    }
  }

  /** The element that holds the rendered cards; `visible` is each card's display state. */
  class Container {
    var cards: seq<Card>
    var visible: seq<bool>

    ghost predicate Valid()
      reads this
    {
      |visible| == |cards|
    }

    constructor ()
      ensures Valid() && cards == [] && visible == []
    {
      cards := [];
      visible := [];
    }

    /** `filterProjects(filter)`: every card's display is set from its own technology text; the
        cards themselves stay. */
    method Filter(filter: string)
      requires Valid()
      modifies this
      ensures Valid() && cards == old(cards)
      ensures visible == Visibility(filter, cards)
    {
      var i := 0;
      while i < |cards|
        invariant 0 <= i <= |cards| && |visible| == |cards| && cards == old(cards)
        invariant forall k :: 0 <= k < i ==> visible[k] == Shows(filter, cards[k])
      {
        visible := visible[i := Shows(filter, cards[i])];
        i := i + 1;
      }
    }
  }
}

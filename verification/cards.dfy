/**
 What `renderProjects` puts into the project grid, as abstract cards instead of
 HTML markup, and the category style lookup `getCategoryClass`.
 */
module Cards {
  import opened Wrappers
  import opened Projects

  /** The categories with a style of their own, and their classes. */
  const BackendCategory: string := "Back-end"
  const AutomationCategory: string := "Automação"
  const WebCategory: string := "Web"
  const BackendClass: string := "project-card__category--backend"
  const AutomationClass: string := "project-card__category--automation"
  const WebClass: string := "project-card__category--web"

  /** `getCategoryClass` as intended: the three known categories have a class, every other one none. */
  function CategoryClass(category: string): (cls: string)
    ensures category == BackendCategory ==> cls == BackendClass
    ensures category == AutomationCategory ==> cls == AutomationClass
    ensures category == WebCategory ==> cls == WebClass
    ensures cls != "" <==> category in {BackendCategory, AutomationCategory, WebCategory}
  {
    if category == BackendCategory then BackendClass
    else if category == AutomationCategory then AutomationClass
    else if category == WebCategory then WebClass
    else ""
  }

  /**
   The names a plain object literal inherits from `Object.prototype`; looking
   one of them up in the class table finds the inherited member.
   */
  const InheritedNames: set<string> := {
    "constructor", "hasOwnProperty", "isPrototypeOf", "propertyIsEnumerable",
    "toLocaleString", "toString", "valueOf", "__defineGetter__", "__defineSetter__",
    "__lookupGetter__", "__lookupSetter__", "__proto__"
  }

  /** What `classes[category] || ''` yields when the table is a plain object literal. */
  datatype ClassLookup =
    | ClassName(name: string)        // an own entry of the table, or the `''` default
    | InheritedMember(member: string) // a truthy inherited function or object, stringified into the markup

  /** `getCategoryClass` as written: an object-literal lookup that also sees inherited members. */
  function CategoryClassAsWritten(category: string): (r: ClassLookup)
    ensures r.InheritedMember? <==> category in InheritedNames
    ensures category !in InheritedNames ==> r == ClassName(CategoryClass(category))
  {
    if category == BackendCategory then ClassName(BackendClass)
    else if category == AutomationCategory then ClassName(AutomationClass)
    else if category == WebCategory then ClassName(WebClass)
    else if category in InheritedNames then InheritedMember(category)
    else ClassName("")
  }

  /** A project whose category is `"constructor"` gets a non-empty class from the code as written. */
  lemma InheritedCategoryGetsClass()
    ensures CategoryClassAsWritten("constructor") != ClassName("")
    ensures CategoryClass("constructor") == ""
  {
    assert "constructor" in InheritedNames;
  }

  /** The stagger tier of the card at position `index`: `min(index + 1, 4)`. */
  function DelayTier(index: nat): (tier: nat)
    ensures 1 <= tier <= 4
    ensures index < 3 ==> tier == index + 1
    ensures index >= 3 ==> tier == 4
  {
    if index + 1 < 4 then index + 1 else 4
  }

  /** Later cards never reveal earlier than earlier cards. */
  lemma DelayTierMonotone(i: nat, j: nat)
    requires i <= j
    ensures DelayTier(i) <= DelayTier(j)
  {
  }

  /**
   One rendered project card. `starBadge` holds the star count the badge shows,
   `dateLabel` the timestamp the date label formats (the localised text itself
   is not modelled).
   */
  datatype Card = Card(
    title: string,
    description: string,
    category: string,
    categoryClass: string,
    repoUrl: string,
    technologies: seq<string>,
    delayTier: nat,
    starBadge: Option<int>,
    dateLabel: Option<int>)

  /** The grid's content: the empty-state placeholder, or the cards in order. */
  datatype Grid = EmptyPlaceholder | CardGrid(cards: seq<Card>)

  /** The card for `p` at position `index`. */
  function MakeCard(p: Project, index: nat): (c: Card)
    ensures Shows(c, p, index)
  {
    Card(
      p.title, p.shortDescription, p.category, CategoryClass(p.category), p.repoUrl, p.technologies,
      DelayTier(index),
      if p.stars > 0 then Some(p.stars) else None,
      p.updatedAt)
  }

  /** `c` is the card that shows project `p` at grid position `index`. */
  ghost predicate Shows(c: Card, p: Project, index: nat) {
    && c.title == p.title
    && c.description == p.shortDescription
    && c.category == p.category
    && c.repoUrl == p.repoUrl
    && c.technologies == p.technologies
    && c.categoryClass == CategoryClass(p.category)
    && c.delayTier == DelayTier(index)
    && (c.starBadge.Some? <==> p.stars > 0)
    && (c.starBadge.Some? ==> c.starBadge.value == p.stars)
    && c.dateLabel == p.updatedAt
  }

  /**
   `renderProjects`: the placeholder alone for an empty list, otherwise one card
   per project, in the list's order.
   */
  function RenderProjects(ps: seq<Project>): (g: Grid)
    ensures g.EmptyPlaceholder? <==> |ps| == 0
    ensures g.CardGrid? ==> |g.cards| == |ps|
    ensures g.CardGrid? ==> forall i | 0 <= i < |ps| :: Shows(g.cards[i], ps[i], i)
  {
    if |ps| == 0 then EmptyPlaceholder
    else CardGrid(seq(|ps|, i requires 0 <= i < |ps| => MakeCard(ps[i], i)))
  }

  /**
   The class on every card agrees with the lookup as written, except for the
   inherited `Object.prototype` names of the finding on `getCategoryClass`.
   */
  lemma RenderedClassMatchesLookup(ps: seq<Project>, i: int)
    requires 0 <= i < |ps|
    requires ps[i].category !in InheritedNames
    ensures RenderProjects(ps).CardGrid?
    ensures CategoryClassAsWritten(ps[i].category) == ClassName(RenderProjects(ps).cards[i].categoryClass)
  {
  }

  /** The grid shows one card for every project the current selection matches. */
  lemma GridMatchesSelection(st: Store)
    ensures var g := RenderProjects(Visible(st));
      g.CardGrid? ==> |g.cards| == |FilterProjects(st.allProjects, st.currentFilter)|
    ensures RenderProjects(Visible(st)).EmptyPlaceholder? <==>
      forall p | p in st.allProjects :: !Matches(p, st.currentFilter)
  {
    var v := Visible(st);
    var f := FilterProjects(st.allProjects, st.currentFilter);
    assert |multiset(v)| == |v|;
    assert multiset(v) == multiset(f);
    assert |multiset(f)| == |f|;
    if |v| == 0 {
      forall p | p in st.allProjects ensures !Matches(p, st.currentFilter) {
        assert multiset(v)[p] == 0;
      }
    } else {
      assert v[0] in v;
    }
  }
}

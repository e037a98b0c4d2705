/**
 * The two pieces of state logic in src/App.jsx: clicking a course node
 * toggles it in the approved list `aprobadas`, and hovering a node narrows
 * the edges shown to those incident on it.
 */
module App {
  import opened Lists
  import opened Curriculum
  import opened Utils

  // ------------------------------------------------------------------
  // The approved list (onNodeClick)
  // ------------------------------------------------------------------

  /**
   * The state updater of `onNodeClick`: an approved id is removed (every
   * occurrence), any other id is appended at the end.
   */
  function Toggle(aprobadas: seq<string>, matId: string): (r: seq<string>)
    ensures matId in aprobadas ==>
              && matId !in r
              && IsSubseq(r, aprobadas)
              && forall x :: x != matId ==> multiset(r)[x] == multiset(aprobadas)[x]
    ensures matId !in aprobadas ==>
              && |r| == |aprobadas| + 1
              && r[..|aprobadas|] == aprobadas
              && r[|aprobadas|] == matId
  {
    if matId in aprobadas then
      var r := Filter(aprobadas, (id: string) => id != matId);
      assert multiset(r)[matId] == 0;
      r
    else
      aprobadas + [matId]
  }

  /** Toggling an id that is not approved twice gives back the same list. */
  lemma ToggleTwice(aprobadas: seq<string>, matId: string)
    requires matId !in aprobadas
    ensures Toggle(Toggle(aprobadas, matId), matId) == aprobadas
  {
    var once := aprobadas + [matId];
    var p := (id: string) => id != matId;
    assert once[..|aprobadas|] == aprobadas;
    assert Filter(once, p) == Filter(aprobadas, p);
    FilterKeepsAll(aprobadas, p);
  }

  /** A toggle never introduces a duplicate. */
  lemma ToggleKeepsNoDup(aprobadas: seq<string>, matId: string)
    requires NoDup(aprobadas)
    ensures NoDup(Toggle(aprobadas, matId))
  {
  }

  /**
   * No cascade: un-approving a course leaves every other approved course
   * approved, even one that requires it.
   */
  lemma NoCascade(aprobadas: seq<string>, matId: string, m: Course)
    requires matId in aprobadas && m.id in aprobadas && m.id != matId
    ensures m.id in Toggle(aprobadas, matId)
    ensures Classify(m, Toggle(aprobadas, matId)) == Approved
  {
    var r := Toggle(aprobadas, matId);
    assert multiset(aprobadas)[m.id] > 0;
    assert multiset(r)[m.id] > 0;
  }

  /** The list after clicking the ids of `clicks` in order, each time on a clickable node. */
  function ToggleAll(aprobadas: seq<string>, clicks: seq<string>): seq<string>
    decreases |clicks|
  {
    if clicks == [] then aprobadas
    else Toggle(ToggleAll(aprobadas, clicks[..|clicks| - 1]), clicks[|clicks| - 1])
  }

  /**
   * From the initial empty list, any run of clicks leaves a duplicate-free
   * list, so its length is the number of approved courses.
   */
  lemma {:induction false} TogglesFromEmpty(clicks: seq<string>)
    ensures NoDup(ToggleAll([], clicks))
    ensures |ToggleAll([], clicks)| == |ToSet(ToggleAll([], clicks))|
    decreases |clicks|
  {
    if clicks != [] {
      TogglesFromEmpty(clicks[..|clicks| - 1]);
      ToggleKeepsNoDup(ToggleAll([], clicks[..|clicks| - 1]), clicks[|clicks| - 1]);
    }
    NoDupCard(ToggleAll([], clicks));
  }

  /** The `aprobadas` state variable and the click handler that updates it. */
  class Tracker {
    var aprobadas: seq<string>

    ghost predicate Valid()
      reads this
    {
      NoDup(aprobadas)
    }

    /** `useState([])` */
    constructor ()
      ensures aprobadas == [] && Valid()
    {
      aprobadas := [];
    }

    /** A click on a node that is not clickable is ignored; otherwise its id is toggled. */
    method OnNodeClick(node: Node)
      requires Valid()
      modifies this
      ensures Valid()
      ensures aprobadas == if node.clickable then Toggle(old(aprobadas), node.id) else old(aprobadas)
    {
      if !node.clickable {
        return;
      }
      var matId := node.id;
      ToggleKeepsNoDup(aprobadas, matId);
      if matId in aprobadas {
        aprobadas := Filter(aprobadas, (id: string) => id != matId);
      } else {
        aprobadas := aprobadas + [matId];
      }
    }

    /** `aprobadas.length`, the counter in the header: the number of distinct approved ids. */
    function Count(): (n: nat)
      reads this
      requires Valid()
      ensures n == |ToSet(aprobadas)|
    {
      NoDupCard(aprobadas);
      |aprobadas|
    }
  }

  // ------------------------------------------------------------------
  // Hover filter (getFilteredEdges)
  // ------------------------------------------------------------------

  /** All edges when nothing is hovered, else the edges incident on the hovered id, in order. */
  function GetFilteredEdges(edges: seq<Edge>, hovered: Option<string>): (r: seq<Edge>)
    ensures !IsHovering(hovered) ==> r == edges
    ensures IsHovering(hovered) ==>
              && IsSubseq(r, edges)
              && forall e :: multiset(r)[e] == if Touches(e, hovered.value) then multiset(edges)[e] else 0
  {
    if !IsHovering(hovered) then edges
    else
      var h := hovered.value;
      Filter(edges, (e: Edge) => Touches(e, h))
  }

  /**
   * When the hovered id names a node, the edges kept are exactly those the
   * highlighting marks "active".
   */
  lemma FilteredEdgesAreActive(nodes: seq<Node>, edges: seq<Edge>, h: string, i: int)
    requires h != "" && HasNode(nodes, h) && 0 <= i < |edges|
    ensures edges[i] in GetFilteredEdges(edges, Some(h))
            <==> ApplyHighlightStyles(nodes, edges, Some(h)).edges[i].className == "active"
  {
  }
}

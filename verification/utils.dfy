/**
 * The graph logic of src/utils.js: building the nodes and edges from the
 * course records, filtering the edges by view mode, classifying every course
 * from the approved list, and the hover highlighting. Colours are
 * abstracted away (see `NodeStyle`).
 */
module Utils {
  import opened Lists
  import opened Keys
  import opened Curriculum

  /** Horizontal and vertical grid spacing, in pixels. */
  const X_SPACING: int := 250
  const Y_SPACING: int := 150

  // ------------------------------------------------------------------
  // Graph construction (getLayoutElements)
  // ------------------------------------------------------------------

  /** `value || 0`: a missing coordinate counts as 0. */
  function OrZero(v: Option<int>): int
  {
    if v.Some? then v.value else 0
  }

  /** The node created for course `m`. */
  function InitialNode(m: Course): Node
  {
    Node(m.id, m.nombre, Some(m), true,
         OrZero(m.posX) * X_SPACING, OrZero(m.posY) * Y_SPACING,
         PlainStyle, "", false)
  }

  /** The edge from requirement `source` to course `target`; only `cursar` edges are animated. */
  function MkEdge(k: EdgeKind, source: string, target: string): Edge
  {
    Edge(EdgeId(k, source, target), source, target, k, k == Cursar, "")
  }

  /** One edge of kind `k` per entry of `reqs`, in order. */
  function ReqEdges(reqs: seq<string>, k: EdgeKind, target: string): seq<Edge>
    decreases |reqs|
  {
    if reqs == [] then []
    else ReqEdges(reqs[..|reqs| - 1], k, target) + [MkEdge(k, reqs[|reqs| - 1], target)]
  }

  /** The edges course `m` asks for: its `final` entries, then its `cursar` entries. */
  function EdgesOf(m: Course): seq<Edge>
  {
    ReqEdges(Reqs(m, Final), Final, m.id) + ReqEdges(Reqs(m, Cursar), Cursar, m.id)
  }

  /** Every edge the loops consider, in the order they consider them. */
  function Candidates(ms: seq<Course>): seq<Edge>
    decreases |ms|
  {
    if ms == [] then [] else Candidates(ms[..|ms| - 1]) + EdgesOf(ms[|ms| - 1])
  }

  /** `e` is the edge some course of `ms` asks for through one of its requirement entries. */
  ghost predicate IsEntryEdge(ms: seq<Course>, e: Edge)
  {
    exists i :: 0 <= i < |ms| && e.target == ms[i].id && e.source in Reqs(ms[i], e.kind)
                && e == MkEdge(e.kind, e.source, e.target)
  }

  /** The edges kept: the first candidate for every edge id. */
  function LayoutEdges(ms: seq<Course>): (r: seq<Edge>)
    ensures forall i, j :: 0 <= i < j < |r| ==> r[i].id != r[j].id
    ensures IsSubseq(r, Candidates(ms))
  {
    FirstByKey(Candidates(ms), IdOf)
  }

  /**
   * The inner `forEach` over one requirement list: pushes the edge of every
   * entry whose id is not yet in `edgesIds`.
   */
  method PushRequirementEdges(edges: seq<Edge>, edgesIds: set<string>, reqs: seq<string>,
                              k: EdgeKind, target: string, ghost done: seq<Edge>)
    returns (edges': seq<Edge>, edgesIds': set<string>)
    requires edges == FirstByKey(done, IdOf) && edgesIds == KeySet(edges, IdOf)
    ensures edges' == FirstByKey(done + ReqEdges(reqs, k, target), IdOf)
    ensures edgesIds' == KeySet(edges', IdOf)
  {
    edges', edgesIds' := edges, edgesIds;
    assert done + ReqEdges(reqs[..0], k, target) == done;
    var j := 0;
    while j < |reqs|
      invariant 0 <= j <= |reqs|
      invariant edges' == FirstByKey(done + ReqEdges(reqs[..j], k, target), IdOf)
      invariant edgesIds' == KeySet(edges', IdOf)
    {
      var edgeId := EdgeId(k, reqs[j], target);
      var edge := Edge(edgeId, reqs[j], target, k, k == Cursar, "");
      PushStep(done, reqs, j, k, target, edges', edgesIds');
      if edgeId !in edgesIds' {
        edges' := edges' + [edge];
        edgesIds' := edgesIds' + {edgeId};
      }
      j := j + 1;
    }
    assert reqs[..j] == reqs;
  }

  /** One iteration of the inner loop, stated on the edges kept so far. */
  lemma PushStep(done: seq<Edge>, reqs: seq<string>, j: int, k: EdgeKind, target: string,
                 edges: seq<Edge>, edgesIds: set<string>)
    requires 0 <= j < |reqs|
    requires edges == FirstByKey(done + ReqEdges(reqs[..j], k, target), IdOf)
    requires edgesIds == KeySet(edges, IdOf)
    ensures var e := MkEdge(k, reqs[j], target);
            && FirstByKey(done + ReqEdges(reqs[..j + 1], k, target), IdOf)
               == (if e.id in edgesIds then edges else edges + [e])
            && KeySet(edges + [e], IdOf) == edgesIds + {e.id}
  {
    var e := MkEdge(k, reqs[j], target);
    var consumed := done + ReqEdges(reqs[..j], k, target);
    assert reqs[..j + 1][..j] == reqs[..j];
    assert (done + ReqEdges(reqs[..j], k, target)) + [e] == done + (ReqEdges(reqs[..j], k, target) + [e]);
    FirstByKeySnoc(consumed, e, IdOf);
    KeySetSnoc(edges, e, IdOf);
  }

  /** The candidates grow by the `final` then the `cursar` edges of one course. */
  lemma CandidatesStep(ms: seq<Course>, i: int)
    requires 0 <= i < |ms|
    ensures Candidates(ms[..i + 1])
            == Candidates(ms[..i]) + ReqEdges(Reqs(ms[i], Final), Final, ms[i].id)
               + ReqEdges(Reqs(ms[i], Cursar), Cursar, ms[i].id)
  {
    assert ms[..i + 1][..i] == ms[..i];
    assert Candidates(ms[..i]) + (ReqEdges(Reqs(ms[i], Final), Final, ms[i].id)
                                  + ReqEdges(Reqs(ms[i], Cursar), Cursar, ms[i].id))
           == Candidates(ms[..i]) + ReqEdges(Reqs(ms[i], Final), Final, ms[i].id)
              + ReqEdges(Reqs(ms[i], Cursar), Cursar, ms[i].id);
  }

  /** The body of the edge loop for one course: its `final` list, then its `cursar` list. */
  method PushCourseEdges(edges: seq<Edge>, edgesIds: set<string>, materia: Course, ghost before: seq<Edge>)
    returns (edges': seq<Edge>, edgesIds': set<string>)
    requires edges == FirstByKey(before, IdOf) && edgesIds == KeySet(edges, IdOf)
    ensures edges' == FirstByKey(before + ReqEdges(Reqs(materia, Final), Final, materia.id)
                                 + ReqEdges(Reqs(materia, Cursar), Cursar, materia.id), IdOf)
    ensures edgesIds' == KeySet(edges', IdOf)
  {
    ghost var finals := ReqEdges(Reqs(materia, Final), Final, materia.id);
    ghost var cursars := ReqEdges(Reqs(materia, Cursar), Cursar, materia.id);
    edges', edgesIds' := edges, edgesIds;
    if materia.requiereParaFinal.Some? {
      edges', edgesIds' :=
        PushRequirementEdges(edges', edgesIds', materia.requiereParaFinal.value, Final, materia.id, before);
    } else {
      assert before + finals == before;
    }
    assert edges' == FirstByKey(before + finals, IdOf);
    if materia.requiereParaCursar.Some? {
      edges', edgesIds' :=
        PushRequirementEdges(edges', edgesIds', materia.requiereParaCursar.value, Cursar, materia.id,
                             before + finals);
    } else {
      assert before + finals + cursars == before + finals;
    }
  }

  /** Creates one node per course, then the `final` and `cursar` edges, skipping repeated ids. */
  method GetLayoutElements(materias: seq<Course>) returns (nodes: seq<Node>, edges: seq<Edge>)
    ensures |nodes| == |materias|
    ensures forall i :: 0 <= i < |materias| ==>
              && nodes[i].id == materias[i].id
              && nodes[i].caption == materias[i].nombre
              && nodes[i].originalData == Some(materias[i])
              && nodes[i].clickable
              && nodes[i].x == OrZero(materias[i].posX) * X_SPACING
              && nodes[i].y == OrZero(materias[i].posY) * Y_SPACING
              && nodes[i].style == PlainStyle && nodes[i].className == "" && !nodes[i].selected
    ensures edges == LayoutEdges(materias)
    ensures forall i, j :: 0 <= i < j < |edges| ==> edges[i].id != edges[j].id
  {
    nodes := [];
    edges := [];
    var edgesIds: set<string> := {};

    var i := 0;
    while i < |materias|
      invariant 0 <= i <= |materias|
      invariant |nodes| == i
      invariant forall j :: 0 <= j < i ==> nodes[j] == InitialNode(materias[j])
    {
      nodes := nodes + [InitialNode(materias[i])];
      i := i + 1;
    }

    i := 0;
    assert Candidates(materias[..0]) == [];
    while i < |materias|
      invariant 0 <= i <= |materias|
      invariant edges == FirstByKey(Candidates(materias[..i]), IdOf)
      invariant edgesIds == KeySet(edges, IdOf)
    {
      CandidatesStep(materias, i);
      edges, edgesIds := PushCourseEdges(edges, edgesIds, materias[i], Candidates(materias[..i]));
      i := i + 1;
    }
    assert materias[..i] == materias;
  }

  lemma {:induction false} ReqEdgesExact(reqs: seq<string>, k: EdgeKind, t: string, e: Edge)
    ensures e in ReqEdges(reqs, k, t)
            <==> e.kind == k && e.target == t && e.source in reqs && e == MkEdge(k, e.source, t)
    decreases |reqs|
  {
    if reqs != [] {
      var init := reqs[..|reqs| - 1];
      assert reqs == init + [reqs[|reqs| - 1]];
      ReqEdgesExact(init, k, t, e);
    }
  }

  lemma EdgesOfExact(m: Course, e: Edge)
    ensures e in EdgesOf(m)
            <==> e.target == m.id && e.source in Reqs(m, e.kind) && e == MkEdge(e.kind, e.source, e.target)
  {
    ReqEdgesExact(Reqs(m, Final), Final, m.id, e);
    ReqEdgesExact(Reqs(m, Cursar), Cursar, m.id, e);
  }

  /** The candidates are exactly the edges the requirement entries ask for. */
  lemma {:induction false} CandidatesExact(ms: seq<Course>, e: Edge)
    ensures e in Candidates(ms) <==> IsEntryEdge(ms, e)
    decreases |ms|
  {
    if ms != [] {
      var init := ms[..|ms| - 1];
      var m := ms[|ms| - 1];
      CandidatesExact(init, e);
      EdgesOfExact(m, e);
      if IsEntryEdge(ms, e) {
        var i :| 0 <= i < |ms| && e.target == ms[i].id && e.source in Reqs(ms[i], e.kind)
                 && e == MkEdge(e.kind, e.source, e.target);
        if i < |ms| - 1 {
          assert init[i] == ms[i];
          assert IsEntryEdge(init, e);
        }
      }
      if IsEntryEdge(init, e) {
        var i :| 0 <= i < |init| && e.target == init[i].id && e.source in Reqs(init[i], e.kind)
                 && e == MkEdge(e.kind, e.source, e.target);
        assert ms[i] == init[i];
      }
    }
  }

  /** Every edge built comes from a requirement entry of some course. */
  lemma LayoutEdgesFromEntries(ms: seq<Course>, e: Edge)
    requires e in LayoutEdges(ms)
    ensures IsEntryEdge(ms, e)
  {
    SubseqMember(LayoutEdges(ms), Candidates(ms), e);
    CandidatesExact(ms, e);
  }

  /** No requirement id holds a dash. */
  ghost predicate ReqsDashFree(ms: seq<Course>)
  {
    forall i, k, q :: 0 <= i < |ms| && q in Reqs(ms[i], k) ==> NoDash(q)
  }

  /**
   * Every requirement entry yields its edge: entry `q` of kind `k` of course
   * `ms[i]` gives an edge of that kind from `q` to `ms[i].id`.
   */
  lemma LayoutEdgesComplete(ms: seq<Course>, i: int, k: EdgeKind, q: string)
    requires ReqsDashFree(ms)
    requires 0 <= i < |ms| && q in Reqs(ms[i], k)
    ensures MkEdge(k, q, ms[i].id) in LayoutEdges(ms)
  {
    var c := MkEdge(k, q, ms[i].id);
    var cands := Candidates(ms);
    var r := LayoutEdges(ms);
    CandidatesExact(ms, c);
    assert IdOf(c) in KeySet(cands, IdOf);
    assert IdOf(c) in KeySet(r, IdOf);
    var e :| e in r && IdOf(e) == IdOf(c);
    LayoutEdgesFromEntries(ms, e);
    var i' :| 0 <= i' < |ms| && e.target == ms[i'].id && e.source in Reqs(ms[i'], e.kind)
              && e == MkEdge(e.kind, e.source, e.target);
    EdgeIdInjective(e.kind, e.source, e.target, k, q, ms[i].id);
  }

  /** A requirement listed both for the exam and for enrolment gives two edges, one of each kind. */
  lemma LayoutBothKinds(ms: seq<Course>, i: int, q: string)
    requires ReqsDashFree(ms)
    requires 0 <= i < |ms| && q in Reqs(ms[i], Final) && q in Reqs(ms[i], Cursar)
    ensures exists a, b :: 0 <= a < |LayoutEdges(ms)| && 0 <= b < |LayoutEdges(ms)| && a != b
              && LayoutEdges(ms)[a] == MkEdge(Final, q, ms[i].id)
              && LayoutEdges(ms)[b] == MkEdge(Cursar, q, ms[i].id)
  {
    var r := LayoutEdges(ms);
    LayoutEdgesComplete(ms, i, Final, q);
    LayoutEdgesComplete(ms, i, Cursar, q);
    var a :| 0 <= a < |r| && r[a] == MkEdge(Final, q, ms[i].id);
    var b :| 0 <= b < |r| && r[b] == MkEdge(Cursar, q, ms[i].id);
    assert r[a].kind != r[b].kind;
  }

  // ------------------------------------------------------------------
  // View-mode edge filter (filterEdgesByMode)
  // ------------------------------------------------------------------

  /** The unified edge of the simplified view: new id `simple-${source}-${target}`, not animated. */
  function Simplify(e: Edge): Edge
  {
    e.(id := Join("simple", PairKey(e)), animated := false)
  }

  function SimplifyAll(s: seq<Edge>): seq<Edge>
  {
    seq(|s|, i requires 0 <= i < |s| => Simplify(s[i]))
  }

  lemma SimplifyAllSnoc(s: seq<Edge>, e: Edge)
    ensures SimplifyAll(s + [e]) == SimplifyAll(s) + [Simplify(e)]
  {
  }

  /** The simplified view: one unified edge for the first edge of every pair key. */
  function Simplified(edges: seq<Edge>): seq<Edge>
  {
    SimplifyAll(FirstByKey(edges, PairKey))
  }

  /** The simplified view is never longer than its input. */
  lemma SimplifiedShorter(edges: seq<Edge>)
    ensures |Simplified(edges)| <= |edges|
  {
    SubseqLength(FirstByKey(edges, PairKey), edges);
  }

  /** No two edges of the simplified view join the same pair of courses. */
  lemma SimplifiedPairsDistinct(edges: seq<Edge>)
    ensures forall j, j' :: 0 <= j < j' < |Simplified(edges)| ==>
              Simplified(edges)[j].source != Simplified(edges)[j'].source
              || Simplified(edges)[j].target != Simplified(edges)[j'].target
  {
  }

  /** Each edge of the simplified view unifies the first input edge with its pair key. */
  lemma SimplifiedFirstEdge(edges: seq<Edge>, j: int)
    requires 0 <= j < |Simplified(edges)|
    ensures exists i :: 0 <= i < |edges| && FirstWithKey(edges, i, PairKey)
                        && Simplified(edges)[j] == Simplify(edges[i])
  {
    var kept := FirstByKey(edges, PairKey);
    FirstByKeyKeepsFirst(edges, PairKey, j);
    var i :| 0 <= i < |edges| && kept[j] == edges[i] && FirstWithKey(edges, i, PairKey);
    assert Simplified(edges)[j] == Simplify(edges[i]);
  }

  /** Every pair key of the input is the pair key of some edge of the simplified view. */
  lemma SimplifiedCoversKeys(edges: seq<Edge>)
    ensures forall i :: 0 <= i < |edges| ==>
              exists j :: 0 <= j < |Simplified(edges)| && PairKey(Simplified(edges)[j]) == PairKey(edges[i])
  {
    var kept := FirstByKey(edges, PairKey);
    var r := Simplified(edges);
    forall i | 0 <= i < |edges| ensures exists j :: 0 <= j < |r| && PairKey(r[j]) == PairKey(edges[i]) {
      FirstByKeyCoversKey(edges, PairKey, i);
      var j :| 0 <= j < |kept| && PairKey(kept[j]) == PairKey(edges[i]);
      assert PairKey(r[j]) == PairKey(kept[j]);
    }
  }

  /** No edge source holds a dash. */
  ghost predicate SourcesDashFree(edges: seq<Edge>)
  {
    forall e :: e in edges ==> NoDash(e.source)
  }

  /** Pair keys with dash-free sources are equal only for the same pair. */
  lemma PairKeyInjective(a: Edge, b: Edge)
    requires NoDash(a.source) && NoDash(b.source) && PairKey(a) == PairKey(b)
    ensures a.source == b.source && a.target == b.target
  {
    JoinInjective(a.source, a.target, b.source, b.target);
  }

  /** Every (source, target) pair of the input is present in the simplified view. */
  lemma SimplifiedCoversPairs(edges: seq<Edge>)
    requires SourcesDashFree(edges)
    ensures forall i :: 0 <= i < |edges| ==>
              exists j :: 0 <= j < |Simplified(edges)|
                          && Simplified(edges)[j].source == edges[i].source
                          && Simplified(edges)[j].target == edges[i].target
  {
    var kept := FirstByKey(edges, PairKey);
    var r := Simplified(edges);
    SimplifiedCoversKeys(edges);
    forall i | 0 <= i < |edges|
      ensures exists j :: 0 <= j < |r| && r[j].source == edges[i].source && r[j].target == edges[i].target
    {
      var j :| 0 <= j < |r| && PairKey(r[j]) == PairKey(edges[i]);
      SubseqMember(kept, edges, kept[j]);
      assert r[j].source == kept[j].source;
      assert edges[i] in edges;
      PairKeyInjective(r[j], edges[i]);
    }
  }

  /** The `simplificada` branch: one loop over the edges, remembering the pair keys seen. */
  method SimplifyEdges(edges: seq<Edge>) returns (uniqueEdges: seq<Edge>)
    ensures uniqueEdges == Simplified(edges)
  {
    uniqueEdges := [];
    var seenPairs: set<string> := {};
    ghost var kept: seq<Edge> := [];
    var i := 0;
    while i < |edges|
      invariant 0 <= i <= |edges|
      invariant kept == FirstByKey(edges[..i], PairKey)
      invariant uniqueEdges == SimplifyAll(kept)
      invariant seenPairs == KeySet(kept, PairKey)
    {
      var edge := edges[i];
      var pairKey := Join(edge.source, edge.target);
      assert edges[..i + 1] == edges[..i] + [edge];
      FirstByKeySnoc(edges[..i], edge, PairKey);
      KeySetSnoc(kept, edge, PairKey);
      assert pairKey == PairKey(edge);
      if pairKey !in seenPairs {
        SimplifyAllSnoc(kept, edge);
        seenPairs := seenPairs + {pairKey};
        uniqueEdges := uniqueEdges + [Simplify(edge)];
        kept := kept + [edge];
      }
      i := i + 1;
    }
    assert edges[..i] == edges;
  }

  /** Keeps the edges the view mode shows; an unknown mode shows them all. */
  method FilterEdgesByMode(edges: seq<Edge>, viewMode: string) returns (r: seq<Edge>)
    ensures viewMode == "cursar" ==>
              && IsSubseq(r, edges)
              && forall e :: multiset(r)[e] == if e.kind == Cursar then multiset(edges)[e] else 0
    ensures viewMode == "final" ==>
              && IsSubseq(r, edges)
              && forall e :: multiset(r)[e] == if e.kind == Final then multiset(edges)[e] else 0
    ensures viewMode == "simplificada" ==> r == Simplified(edges)
    ensures viewMode != "cursar" && viewMode != "final" && viewMode != "simplificada" ==> r == edges
  {
    if viewMode == "todas" {
      return edges;
    }
    if viewMode == "cursar" {
      return Filter(edges, (e: Edge) => e.kind == Cursar);
    }
    if viewMode == "final" {
      return Filter(edges, (e: Edge) => e.kind == Final);
    }
    if viewMode == "simplificada" {
      r := SimplifyEdges(edges);
      return;
    }
    return edges;
  }

  // ------------------------------------------------------------------
  // State classification (updateNodeStyles)
  // ------------------------------------------------------------------

  /** `requiere_para_cursar?.every(id => aprobadas.includes(id)) ?? true` */
  predicate CursarMet(m: Course, aprobadas: seq<string>)
  {
    m.requiereParaCursar.None? || forall q | q in m.requiereParaCursar.value :: q in aprobadas
  }

  /**
   * The three-way decision of the styling pass: approved courses first;
   * otherwise a course is blocked exactly when it lists an enrolment
   * requirement that is not approved.
   */
  function Classify(m: Course, aprobadas: seq<string>): (s: CourseState)
    ensures s == Approved <==> m.id in aprobadas
    ensures s == Blocked <==> m.id !in aprobadas && m.requiereParaCursar.Some?
                              && exists q :: q in m.requiereParaCursar.value && q !in aprobadas
  {
    if m.id in aprobadas then Approved
    else if CursarMet(m, aprobadas) then Available
    else Blocked
  }

  /**
   * The style the code gives a node of state `state`: it copies the node's
   * current style and overwrites the palette keys, adding `fontWeight` for an
   * approved course and `borderWidth` for an available one. Neither key is
   * ever removed.
   */
  function Repaint(st: NodeStyle, state: CourseState): NodeStyle
  {
    match state
    case Approved => st.(palette := Some(Approved), bold := true)
    case Available => st.(palette := Some(Available), wideBorder := true)
    case Blocked => st.(palette := Some(Blocked))
  }

  /** The style a node of state `state` is meant to have, whatever it had before. */
  function StateStyle(state: CourseState): NodeStyle
  {
    NodeStyle(Some(state), state == Approved, state == Available)
  }

  /** The node restyled for its course's state by the code as written. */
  function StyleNodeAsWritten(n: Node, aprobadas: seq<string>): Node
  {
    match n.originalData
    case None => n
    case Some(mat) =>
      var state := Classify(mat, aprobadas);
      n.(caption := (if mat.id in aprobadas then "✅ " else "") + mat.nombre,
         clickable := state != Blocked,
         style := Repaint(n.style, state))
  }

  /**
   * `updateNodeStyles` as written: the palette follows the state, but a bold
   * or wide-border key once added stays.
   */
  function UpdateNodeStylesAsWritten(nodes: seq<Node>, aprobadas: seq<string>): (r: seq<Node>)
    ensures |r| == |nodes|
    ensures forall i :: 0 <= i < |nodes| && nodes[i].originalData.None? ==> r[i] == nodes[i]
    ensures forall i :: 0 <= i < |nodes| && nodes[i].originalData.Some? ==>
              var mat := nodes[i].originalData.value;
              && r[i].style.palette.Some?
              && (r[i].style.palette == Some(Approved) <==> mat.id in aprobadas)
              && (r[i].style.bold <==> nodes[i].style.bold || mat.id in aprobadas)
              && (r[i].style.wideBorder <==> nodes[i].style.wideBorder || r[i].style.palette == Some(Available))
    ensures forall i :: 0 <= i < |nodes| ==>
              && r[i].(style := PlainStyle) == UpdateNodeStyles(nodes, aprobadas)[i].(style := PlainStyle)
              && r[i].style.palette == UpdateNodeStyles(nodes, aprobadas)[i].style.palette
  {
    seq(|nodes|, i requires 0 <= i < |nodes| => StyleNodeAsWritten(nodes[i], aprobadas))
  }

  /**
   * Approving a course and then taking it back leaves its node bold under the
   * code as written, unlike a node styled for the current list directly.
   */
  lemma BoldOutlivesApproval(nodes: seq<Node>, before: seq<string>, after: seq<string>, i: int)
    requires 0 <= i < |nodes| && nodes[i].originalData.Some?
    requires nodes[i].originalData.value.id in before && nodes[i].originalData.value.id !in after
    ensures UpdateNodeStylesAsWritten(UpdateNodeStylesAsWritten(nodes, before), after)[i].style.bold
    ensures !UpdateNodeStyles(nodes, after)[i].style.bold
  {
  }

  /**
   * The node restyled for its course's state, with the state's style written
   * afresh; a node without course data is left as it is.
   */
  function StyleNode(n: Node, aprobadas: seq<string>): Node
  {
    match n.originalData
    case None => n
    case Some(mat) => StyleNodeAsWritten(n, aprobadas).(style := StateStyle(Classify(mat, aprobadas)))
  }

  /** `updateNodeStyles` with each state's style keys written afresh. */
  function UpdateNodeStyles(nodes: seq<Node>, aprobadas: seq<string>): (r: seq<Node>)
    ensures |r| == |nodes|
    ensures forall i :: 0 <= i < |nodes| && nodes[i].originalData.None? ==> r[i] == nodes[i]
    ensures forall i :: 0 <= i < |nodes| && nodes[i].originalData.Some? ==>
              var mat := nodes[i].originalData.value;
              && r[i].style.palette.Some?
              && (r[i].style.palette == Some(Approved) <==> mat.id in aprobadas)
              && (r[i].style.palette == Some(Available) <==>
                    mat.id !in aprobadas
                    && (mat.requiereParaCursar.None?
                        || forall q :: q in mat.requiereParaCursar.value ==> q in aprobadas))
              && (r[i].style.bold <==> r[i].style.palette == Some(Approved))
              && (r[i].style.wideBorder <==> r[i].style.palette == Some(Available))
              && (r[i].clickable <==> r[i].style.palette != Some(Blocked))
              && r[i].caption == (if mat.id in aprobadas then "✅ " + mat.nombre else mat.nombre)
              && r[i].(caption := nodes[i].caption, clickable := nodes[i].clickable, style := nodes[i].style)
                 == nodes[i]
  {
    seq(|nodes|, i requires 0 <= i < |nodes| => StyleNode(nodes[i], aprobadas))
  }

  /** The exam requirements never decide a course's state. */
  lemma ClassifyIgnoresFinal(m: Course, finals: Option<seq<string>>, aprobadas: seq<string>)
    ensures Classify(m.(requiereParaFinal := finals), aprobadas) == Classify(m, aprobadas)
  {
  }

  /**
   * Restyling already styled nodes with a new approved list gives what styling
   * the original nodes would: nothing of the previous list survives.
   */
  lemma RestyleForgetsPrevious(nodes: seq<Node>, before: seq<string>, after: seq<string>)
    ensures UpdateNodeStyles(UpdateNodeStyles(nodes, before), after) == UpdateNodeStyles(nodes, after)
  {
  }

  /** Only the set of approved ids matters, not their order or repetitions. */
  lemma {:induction false} StylesDependOnSetOnly(nodes: seq<Node>, l1: seq<string>, l2: seq<string>)
    requires ToSet(l1) == ToSet(l2)
    ensures UpdateNodeStyles(nodes, l1) == UpdateNodeStyles(nodes, l2)
  {
    forall x ensures x in l1 <==> x in l2 {
      assert x in l1 <==> x in ToSet(l1);
      assert x in l2 <==> x in ToSet(l2);
    }
    var r1 := UpdateNodeStyles(nodes, l1);
    var r2 := UpdateNodeStyles(nodes, l2);
    forall i | 0 <= i < |nodes| ensures r1[i] == r2[i] {
      assert r1[i] == StyleNode(nodes[i], l1);
      assert r2[i] == StyleNode(nodes[i], l2);
    }
  }

  /**
   * A course without enrolment requirements is Available until it is approved,
   * whatever its exam requirements and whether or not they are approved.
   */
  lemma ExamRequirementDoesNotBlock(m: Course, aprobadas: seq<string>)
    requires m.requiereParaCursar.None? && m.id !in aprobadas
    ensures Classify(m, aprobadas) == Available
  {
  }

  // ------------------------------------------------------------------
  // Hover highlighting (applyHighlightStyles)
  // ------------------------------------------------------------------

  /** `!hoveredNodeId` is false: an id is given and it is not the empty string. */
  predicate IsHovering(hovered: Option<string>)
  {
    hovered.Some? && hovered.value != ""
  }

  predicate HasNode(nodes: seq<Node>, id: string)
  {
    exists n | n in nodes :: n.id == id
  }

  /** Some edge joins `a` and `h`, in either direction. */
  predicate Linked(edges: seq<Edge>, a: string, h: string)
  {
    exists e | e in edges :: (e.source == a && e.target == h) || (e.target == a && e.source == h)
  }

  /** The edge starts or ends at `h`. */
  predicate Touches(e: Edge, h: string)
  {
    e.source == h || e.target == h
  }

  function ClearNode(n: Node): Node
  {
    n.(className := "", selected := false)
  }

  function ClearEdge(e: Edge): Edge
  {
    e.(className := "", animated := e.kind == Cursar)
  }

  function HighlightNode(n: Node, edges: seq<Edge>, h: string): Node
  {
    n.(className := if n.id == h then "selected-hover" else if Linked(edges, n.id, h) then "connected" else "",
       selected := n.id == h)
  }

  function HighlightEdge(e: Edge, h: string): Edge
  {
    e.(className := if Touches(e, h) then "active" else "inactive")
  }

  /** The nodes and edges handed back to the renderer. */
  datatype Scene = Scene(nodes: seq<Node>, edges: seq<Edge>)

  /** `a` is `b` apart from the hover fields `className` and `selected`. */
  predicate SameNodeBut(a: Node, b: Node)
  {
    a.(className := b.className, selected := b.selected) == b
  }

  /** `a` is `b` apart from `className` and `animated`. */
  predicate SameEdgeBut(a: Edge, b: Edge)
  {
    a.(className := b.className, animated := b.animated) == b
  }

  function ApplyHighlightStyles(nodes: seq<Node>, edges: seq<Edge>, hovered: Option<string>): (r: Scene)
    ensures |r.nodes| == |nodes| && |r.edges| == |edges|
    ensures forall i :: 0 <= i < |nodes| ==> SameNodeBut(r.nodes[i], nodes[i])
    ensures forall i :: 0 <= i < |edges| ==> SameEdgeBut(r.edges[i], edges[i])
    ensures !IsHovering(hovered) ==>
              && (forall i :: 0 <= i < |nodes| ==> r.nodes[i].className == "" && !r.nodes[i].selected)
              && (forall i :: 0 <= i < |edges| ==>
                    r.edges[i].className == "" && (r.edges[i].animated <==> edges[i].kind == Cursar))
    ensures IsHovering(hovered) && !HasNode(nodes, hovered.value) ==> r == Scene(nodes, edges)
    ensures IsHovering(hovered) && HasNode(nodes, hovered.value) ==>
              var h := hovered.value;
              && (forall i :: 0 <= i < |nodes| ==>
                    && (r.nodes[i].selected <==> nodes[i].id == h)
                    && (r.nodes[i].className == "selected-hover" <==> nodes[i].id == h)
                    && (r.nodes[i].className == "connected" <==> nodes[i].id != h && Linked(edges, nodes[i].id, h))
                    && (r.nodes[i].className == "" <==> nodes[i].id != h && !Linked(edges, nodes[i].id, h)))
              && (forall i :: 0 <= i < |edges| ==>
                    && (r.edges[i].className == "active" <==> Touches(edges[i], h))
                    && (r.edges[i].className == "inactive" <==> !Touches(edges[i], h))
                    && r.edges[i].animated == edges[i].animated)
  {
    if !IsHovering(hovered) then
      Scene(seq(|nodes|, i requires 0 <= i < |nodes| => ClearNode(nodes[i])),
            seq(|edges|, i requires 0 <= i < |edges| => ClearEdge(edges[i])))
    else if !HasNode(nodes, hovered.value) then
      Scene(nodes, edges)
    else
      var h := hovered.value;
      Scene(seq(|nodes|, i requires 0 <= i < |nodes| => HighlightNode(nodes[i], edges, h)),
            seq(|edges|, i requires 0 <= i < |edges| => HighlightEdge(edges[i], h)))
  }

  /** With node ids unique, hovering an existing node selects exactly one node. */
  lemma HoverSelectsOne(nodes: seq<Node>, edges: seq<Edge>, h: string)
    requires h != "" && HasNode(nodes, h)
    requires forall i, j :: 0 <= i < j < |nodes| ==> nodes[i].id != nodes[j].id
    ensures var r := ApplyHighlightStyles(nodes, edges, Some(h));
            exists i :: 0 <= i < |nodes| && r.nodes[i].selected
                        && forall j :: 0 <= j < |nodes| && r.nodes[j].selected ==> j == i
  {
    var r := ApplyHighlightStyles(nodes, edges, Some(h));
    var n :| n in nodes && n.id == h;
    var i :| 0 <= i < |nodes| && nodes[i] == n;
    assert r.nodes[i].selected;
    forall j | 0 <= j < |nodes| && r.nodes[j].selected ensures j == i {
      assert nodes[j].id == h;
    }
  }

  /**
   * Clearing a highlighted scene restores the hover fields: every node's
   * `className` and `selected` and every edge's `className` and `animated`
   * come out as when clearing the scene that was never highlighted. The
   * border, shadow and opacity keys a hover adds to the style objects are
   * outside this model; the clearing call keeps them.
   */
  lemma LeaveUndoesHover(nodes: seq<Node>, edges: seq<Edge>, h: string)
    ensures var hov := ApplyHighlightStyles(nodes, edges, Some(h));
            ApplyHighlightStyles(hov.nodes, hov.edges, None) == ApplyHighlightStyles(nodes, edges, None)
  {
  }
}

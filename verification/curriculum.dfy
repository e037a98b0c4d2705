/**
 * The records the curriculum graph is made of: a course ("materia") as read
 * from the program's data, the graph node shown for it, the prerequisite
 * edges between courses, and the three states a course can be in.
 */
module Curriculum {
  import opened Lists
  import opened Keys

  /**
   * A course record. `posX`/`posY` are grid coordinates and may be missing;
   * either requirement list may be missing as well.
   */
  datatype Course = Course(
    id: string,
    nombre: string,
    posX: Option<int>,
    posY: Option<int>,
    requiereParaFinal: Option<seq<string>>,
    requiereParaCursar: Option<seq<string>>)

  /** Approved, available to enrol in, or blocked by a missing prerequisite. */
  datatype CourseState = Approved | Available | Blocked

  /**
   * The node's style object, reduced to what the state styling decides.
   * `palette` stands for the colour keys (background, border colour, text
   * colour, cursor), which every state overwrites together: `None` is the
   * plain white style a node is created with, `Some(s)` the palette of state
   * `s`. `bold` is a `fontWeight: 'bold'` key and `wideBorder` a
   * `borderWidth: '2px'` key; only one state writes each of them.
   */
  datatype NodeStyle = NodeStyle(palette: Option<CourseState>, bold: bool, wideBorder: bool)

  /** The style a node is created with. */
  const PlainStyle := NodeStyle(None, false, false)

  /**
   * A graph node. `caption` is `data.label`, `originalData` the course the
   * node was created from, if any.
   */
  datatype Node = Node(
    id: string,
    caption: string,
    originalData: Option<Course>,
    clickable: bool,
    x: int,
    y: int,
    style: NodeStyle,
    className: string,
    selected: bool)

  /** `final`: needed to sit the exam; `cursar`: needed to enrol. */
  datatype EdgeKind = Final | Cursar

  /** A prerequisite edge from `source` (the requirement) to `target`. */
  datatype Edge = Edge(
    id: string,
    source: string,
    target: string,
    kind: EdgeKind,
    animated: bool,
    className: string)

  /** The `type` string of an edge. */
  function KindName(k: EdgeKind): string
  {
    match k
    case Final => "final"
    case Cursar => "cursar"
  }

  /** The edge id `${type}-${source}-${target}`. */
  function EdgeId(k: EdgeKind, source: string, target: string): string
  {
    Join(KindName(k), Join(source, target))
  }

  /** Edge ids determine kind, source and target when sources hold no dash. */
  lemma EdgeIdInjective(k: EdgeKind, s: string, t: string, k': EdgeKind, s': string, t': string)
    requires NoDash(s) && NoDash(s')
    requires EdgeId(k, s, t) == EdgeId(k', s', t')
    ensures k == k' && s == s' && t == t'
  {
    assert NoDash(KindName(k)) && NoDash(KindName(k'));
    JoinInjective(KindName(k), Join(s, t), KindName(k'), Join(s', t'));
    JoinInjective(s, t, s', t');
  }

  function IdOf(e: Edge): string
  {
    e.id
  }

  /** The key `${source}-${target}` of the pair an edge connects. */
  function PairKey(e: Edge): string
  {
    Join(e.source, e.target)
  }

  /** A missing requirement list reads as empty. */
  function ReqList(reqs: Option<seq<string>>): seq<string>
  {
    if reqs.Some? then reqs.value else []
  }

  /** The requirement ids of `m` that give edges of kind `k`. */
  function Reqs(m: Course, k: EdgeKind): seq<string>
  {
    match k
    case Final => ReqList(m.requiereParaFinal)
    case Cursar => ReqList(m.requiereParaCursar)
  }
}

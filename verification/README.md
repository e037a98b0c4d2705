# Course-tracking graph engine

A Dafny model of the course graph behind UTN Pathfinder, a single-page
app where a student marks courses ("materias") of a degree as approved and
sees the prerequisite graph recoloured. The model covers the graph logic in
`src/utils.js` and the two pieces of state logic in `src/App.jsx`:

- **Graph construction** (`getLayoutElements`). It makes one node per course,
  placed on a 250 × 150 pixel grid; a missing coordinate counts as 0. It makes
  one `final` edge per exam requirement and one animated `cursar` edge per
  enrolment requirement, and skips an edge whose id `${type}-${req}-${id}` was
  already built.
- **View modes** (`filterEdgesByMode`):
  - `todas` and any unknown mode show every edge.
  - `cursar` and `final` keep one kind of edge.
  - `simplificada` keeps the first edge of every `${source}-${target}` pair. It
    renames that edge `simple-${source}-${target}` and stops its animation.
- **State classification** (`updateNodeStyles`). A course is Approved when its
  id is in the approved list. It is Available when every enrolment
  requirement is approved, and Blocked otherwise. The state decides the
  node's palette, whether it can be clicked, and the "✅ " prefix of its
  label. Exam requirements are never consulted.
- **Hover highlighting** (`applyHighlightStyles`). The hovered node is
  `selected-hover`, its neighbours are `connected`, and its incident edges are
  `active` while the rest are `inactive`. Without a hovered id every class is
  reset and `cursar` edges are animated again. The border, shadow and opacity
  keys a hover adds to the style objects are not reset. `src/App.jsx` does
  not call this function: it imports only `getLayoutElements`,
  `updateNodeStyles` and `filterEdgesByMode`.
- **The approved list** (`onNodeClick`). A click on a clickable node removes
  its id from `aprobadas` if present, and appends it otherwise.
- **The hover edge filter** (`getFilteredEdges`). It returns the edges
  incident on the hovered node.

Modules:

- `Lists` (lists.dfy) holds the sequence machinery: `Filter`, the
  subsequence relation, and `FirstByKey`. `FirstByKey` is the
  specification of the "Set of seen keys + push" loop that the code writes
  twice.
- `Keys` (keys.dfy) holds the dash-joined string keys.
- `Curriculum` (curriculum.dfy) holds the records.
- `Utils` (utils.dfy) and `App` (app.dfy) model the two source files.

The two loop-based operations are methods proved against specification
functions:

- `GetLayoutElements` against `LayoutEdges`.
- The `simplificada` branch against `Simplified`.

The click handler is a method of the `Tracker` class, which owns `aprobadas`.

Keys are built by string concatenation. `Keys.SplitJoin` proves that they can
be taken apart again when the left part holds no dash. `Keys.DashCollision`
shows two different pairs sharing a key otherwise. The properties that need
unique keys are therefore stated under "no requirement id holds a dash"
(`ReqsDashFree`, `SourcesDashFree`).

Facts about the code that the model keeps as they are:

- Un-approving a course does not cascade to the courses that depend on it
  (`App.NoCascade`).
- Availability ignores the exam requirements (`Utils.ClassifyIgnoresFinal`,
  `Utils.ExamRequirementDoesNotBlock`).
- A `cursar` edge that duplicates a `final` edge is kept
  (`Utils.LayoutBothKinds`).
- The simplified view drops repeated (source, target) pairs; it does not look
  at course states.
- Any mode other than `todas`, `cursar`, `final` and `simplificada` shows all
  edges.

## Model

| member | source | states |
|---|---|---|
| Keys.SplitJoin | src/utils.js:131 | Splitting a key `${a}-${b}` at its first dash gives back `a` and `b` when `a` holds no dash. |
| Keys.JoinInjective | src/utils.js:208 | Two pair keys with dash-free left parts are equal only when both parts are equal. |
| Keys.DashCollision | src/utils.js:208 | Without that condition, the pairs ("x-y", "a") and ("x", "y-a") get the same key. |
| Curriculum.EdgeIdInjective | src/utils.js:131-156 | Edge ids with dash-free sources determine the edge's kind, source and target. |
| Lists.Filter | src/utils.js:192-195 | `filter` keeps a subsequence of its input. Each value occurs as often as in the input if it passes the predicate, and not at all otherwise. |
| Lists.FirstByKey | src/utils.js:125-174 | The keep-first-per-key loop returns a subsequence of its input. It has the input's set of keys and no key twice. |
| Lists.FirstByKeyKeepsFirst | src/utils.js:134-148 | Every kept element is the first element of the input with its key. |
| Lists.FirstByKeyCoversKey | src/utils.js:134-148 | Every key of the input is the key of some kept element. |
| Utils.LayoutEdges | src/utils.js:125-174 | The edges built have pairwise distinct ids and are a subsequence of the candidate edges. The candidates are all `final` edges then all `cursar` edges of each course, in course order. |
| Utils.PushRequirementEdges | src/utils.js:129-149 | The inner `forEach` adds the edges of one requirement list to the kept edges exactly as the keep-first loop would. `edgesIds` stays the set of kept ids. |
| Utils.PushCourseEdges | src/utils.js:126-173 | The loop body for one course processes its `final` list and then its `cursar` list. An absent list adds nothing. |
| Utils.GetLayoutElements | src/utils.js:69-179 | There is one node per course, in order, with the course's id, name and data. It is clickable, unstyled and unselected, at (posX·250, posY·150) with missing coordinates as 0. The edges equal `LayoutEdges` and have distinct ids. |
| Utils.ReqEdgesExact | src/utils.js:129-172 | The edges of a requirement list are exactly the edges of that kind from a listed id to the course. |
| Utils.CandidatesExact | src/utils.js:125-174 | An edge is a candidate iff some course lists its source in the list of its kind. Its target is that course and its id and animation are as built. |
| Utils.LayoutEdgesFromEntries | src/utils.js:125-174 | Every edge built comes from a requirement entry of some course. |
| Utils.LayoutEdgesComplete | src/utils.js:125-174 | With dash-free requirement ids, every requirement entry yields its edge. |
| Utils.LayoutBothKinds | src/utils.js:128-173 | With dash-free requirement ids, an id required both for the exam and for enrolment gives two distinct edges, one `final` and one `cursar`. |
| Utils.SimplifyEdges | src/utils.js:199-228 | The `simplificada` loop returns `Simplified(edges)`: the first edge of each pair key, renamed `simple-…` and not animated. |
| Utils.SimplifiedShorter | src/utils.js:199-228 | The simplified view has at most as many edges as its input. |
| Utils.SimplifiedPairsDistinct | src/utils.js:206-226 | No two simplified edges join the same (source, target) pair. |
| Utils.SimplifiedFirstEdge | src/utils.js:206-226 | Each simplified edge is the unified copy of the first input edge with its pair key. |
| Utils.SimplifiedCoversKeys | src/utils.js:206-226 | Every pair key of the input appears in the simplified view. |
| Utils.SimplifiedCoversPairs | src/utils.js:206-226 | With dash-free sources, every (source, target) pair of the input appears in the simplified view. |
| Utils.FilterEdgesByMode | src/utils.js:187-232 | `cursar` and `final` keep exactly the edges of that kind, in order. `simplificada` gives the simplified view. `todas` and every other mode return the edges unchanged. |
| Utils.UpdateNodeStylesAsWritten | src/utils.js:240-308 | As written, restyling sets the palette from the state. A bold key is added on approval and a wide-border key on availability, and each stays once added. Nodes without course data are unchanged. Apart from those two keys, every node equals the one `Utils.UpdateNodeStyles` gives: the same palette (Approved, Available or Blocked as stated there), clickability, label and other fields. |
| Utils.BoldOutlivesApproval | src/utils.js:257-295 | As written, a course approved and then un-approved keeps a bold node. Styling for the current list directly gives a node that is not bold. |
| Utils.UpdateNodeStyles | src/utils.js:240-308 | The corrected definition of the finding below: the state's style keys are written afresh instead of over the previous style. Length and order are kept, and nodes without course data are unchanged. Each node is Approved iff its id is in the list. It is Available iff it is not approved and its enrolment list is absent or fully approved, and Blocked otherwise. It is clickable iff not Blocked. Its label gets "✅ " iff approved. It is bold iff Approved and has a wide border iff Available. Nothing else changes. |
| Utils.Classify | src/utils.js:254-295 | A course is Approved iff its id is in the approved list. It is Blocked iff it is not approved and lists an enrolment requirement that is not approved; otherwise it is Available. |
| Utils.ClassifyIgnoresFinal | src/utils.js:274-276 | A course's state does not depend on its exam requirements. |
| Utils.ExamRequirementDoesNotBlock | src/utils.js:274-276 | A course without enrolment requirements that is not approved is Available, whatever its exam requirements. |
| Utils.RestyleForgetsPrevious | src/utils.js:247-307 | Restyling styled nodes with a new list gives the same nodes as styling the originals with it. |
| Utils.StylesDependOnSetOnly | src/utils.js:254-276 | Two approved lists with the same ids give the same styling, whatever their order or repetitions. |
| Utils.ApplyHighlightStyles | src/utils.js:316-415 | Only className and selected change on nodes, and only className and animated on edges. With no hover id (absent or ""), every class is "", nothing is selected, and an edge is animated iff it is `cursar`. A hover id matching no node returns the inputs unchanged. Otherwise a node is selected and `selected-hover` iff it is the hovered one, `connected` iff it shares an edge with it, and "" otherwise. An edge is `active` iff incident on it and `inactive` otherwise, with its animation kept. |
| Utils.HoverSelectsOne | src/utils.js:344-366 | With unique node ids, hovering an existing node selects exactly one node. |
| Utils.LeaveUndoesHover | src/utils.js:318-331 | Clearing a highlighted scene restores every node's className and selected and every edge's className and animated to what clearing the original scene gives. |
| App.Toggle | src/App.jsx:93-99 | For an approved id, the result has no occurrence of it and keeps every other id, with its multiplicity, in order. For any other id, the old list is kept as it was with the id appended at the end. |
| App.ToggleTwice | src/App.jsx:93-99 | Toggling an id that is not approved twice restores the list exactly. |
| App.ToggleKeepsNoDup | src/App.jsx:93-99 | A toggle keeps a duplicate-free list duplicate-free. |
| App.NoCascade | src/App.jsx:94-95 | Un-approving one course keeps every other approved course approved, including courses that require it. |
| App.TogglesFromEmpty | src/App.jsx:93-99 | Any run of toggles from the initial empty list leaves a duplicate-free list. Its length is the number of distinct approved ids. |
| App.Tracker.constructor | src/App.jsx:43 | The approved list starts empty. |
| App.Tracker.OnNodeClick | src/App.jsx:90-100 | A click on a node that is not clickable leaves `aprobadas` unchanged. Otherwise the node's id is toggled. The list stays duplicate-free. |
| App.Tracker.Count | src/App.jsx:151 | The counter `aprobadas.length` equals the number of distinct approved ids. |
| App.GetFilteredEdges | src/App.jsx:83-88 | With no hover id, the edges are returned unchanged. Otherwise exactly the edges whose source or target is the hovered id are returned, in order. |
| App.FilteredEdgesAreActive | src/App.jsx:83-88 | When the hovered id names a node, an edge is kept by the hover filter iff the highlighting marks it `active`. |

## Left out

- Colours, themes and dark mode: the palettes, stroke widths, opacities, shadows and `NODE_WIDTH`. A node's style is reduced to its state palette plus the two keys the state styling adds (`NodeStyle`). Edges carry no style.
- Utils.ApplyHighlightStyles: the hover border and shadow of the hovered and connected nodes are not modelled. Neither is the stroke width or opacity of active and inactive edges. In the source the hover also overwrites `borderColor` (one of the keys `palette` stands for) and `borderWidth` (the key `wideBorder` stands for); the model leaves `Node.style` unchanged under highlighting.
- Utils.LeaveUndoesHover: in the source the clearing call keeps the hovered node's orange border and shadow, the connected nodes' blue border and the inactive edges' opacity, so the cleared scene differs from clearing the original in those style keys. The model does not carry them.
- The node `type: 'default'`, edge `type` strings beyond the two kinds, and ReactFlow's own fields.
- The course data import in `src/utils.js`: the course list is a parameter of `GetLayoutElements`.
- Coordinates are integers. Only a missing coordinate counts as 0; the other falsy values of `||` (such as `NaN`) are not modelled.
- An absent `className` is modelled as "", an absent `animated` as false, and the `selected` field new nodes lack as false.
- React hooks, effects, memoised callbacks and rendering in `src/App.jsx`. The effects only re-run the modelled functions. The hover id is a parameter of `GetFilteredEdges`, not a field of `Tracker`.
- `src/components/MatrixRain.jsx` and `src/components/CarreraSelector.jsx` are not part of this model. They are presentation only.

## Findings

| source | as written | input that shows it | evidently intended | confidence | as-written member | corrected member |
|---|---|---|---|---|---|---|
| src/utils.js:257-295 | The new style starts as a copy of the node's current style. `fontWeight: 'bold'` is added for an approved course and `borderWidth: '2px'` for an available one, and neither key is ever removed. | Approve a course with no requirements (`aprobadas` = ["A"]), then click it again (`aprobadas` = []). Its node is Available with the Available palette but still bold. | A node's look depends only on its current state: restyling forgets the previous list (`Utils.RestyleForgetsPrevious`). | high, not executed | Utils.BoldOutlivesApproval | Utils.UpdateNodeStyles |

/**
 * The state of the desktop tool's `HikSmartExplorer` window: the parsed
 * configuration and capability documents, the rows of the tree widget with
 * their `tree_map` entries, the value being edited, the editor's buttons,
 * and the Loxone dialogs opened.
 *
 * A tree item is identified by its index in `rows`; the root item is row 0.
 * A row reaches its element through its position in the configuration
 * document, so writing `el.text` is an update of `configRoot` at that
 * position. Network answers, the user's confirmation and `ET.tostring` are
 * parameters.
 */
module LoxoneExplorer {
  import opened Wrappers
  import opened Strings
  import App
  import opened LoxoneIsapi

  /**
   * One item of the tree widget and its `tree_map` entry: parent item,
   * label, value column, element (by position) and capability element.
   */
  datatype Row = Row(parent: Option<nat>, text: string, shown: string, el: PyPath, cap: Option<PyElement>)

  /** What `get_context_module` returns when it finds a module: its label and its element. */
  datatype Context = Context(name: string, el: PyPath)

  /** The buttons `on_tree_select` leaves in the editor, with the item and the editor kind they captured. */
  datatype Editor = Editor(item: nat, kind: EditType)

  /** The text a `LoxoneDialog` shows. */
  datatype LoxoneDialog = LoxoneDialog(address: string, instruction: string, body: string)

  /** The request of `do_put`. */
  datatype PutRequest = PutRequest(url: string, body: string)

  /** What `requests.put` gave: a response with a status code, or an exception. */
  datatype PutOutcome = Status(code: int) | Raised

  // ---------------------------------------------------------------- rows

  /**
   * The rows `_add_nodes_recursive` inserts for the children `i..` of `e`
   * (the element at `path`, with capability context `cap`) below item
   * `parentId`, the first of them getting item id `base`: a row per child,
   * each followed by the rows of its own children.
   */
  function ChildRows(parentId: nat, e: PyElement, path: PyPath, cap: Option<PyElement>, i: nat, base: nat): seq<Row>
    decreases e, |e.children| - i, 1
  {
    if i >= |e.children| then []
    else
      var sub := SubRows(e, path, cap, i, base);
      [ChildRow(parentId, e, path, cap, i)] + sub + ChildRows(parentId, e, path, cap, i + 1, base + 1 + |sub|)
  }

  /** The row of the child `i` of `e`: its tag, its display value, its position and its capability element. */
  function ChildRow(parentId: nat, e: PyElement, path: PyPath, cap: Option<PyElement>, i: nat): Row
    requires i < |e.children|
  {
    var c := e.children[i];
    Row(Some(parentId), c.tag, DisplayValue(c), path + [i], ChildCapability(cap, c.tag))
  }

  /** The rows below the child `i` of `e`, whose own row has item id `base`. */
  function SubRows(e: PyElement, path: PyPath, cap: Option<PyElement>, i: nat, base: nat): seq<Row>
    requires i < |e.children|
    decreases e, |e.children| - i, 0
  {
    var c := e.children[i];
    if |c.children| > 0 then ChildRows(base, c, path + [i], ChildCapability(cap, c.tag), 0, base + 1) else []
  }

  /** The rows of the children `i..`: the row of child `i`, the rows below it, then the rows of the children after it. */
  lemma ChildRowsUnfold(parentId: nat, e: PyElement, path: PyPath, cap: Option<PyElement>, i: nat, base: nat)
    requires i < |e.children|
    ensures var sub := SubRows(e, path, cap, i, base);
      ChildRows(parentId, e, path, cap, i, base) ==
      [ChildRow(parentId, e, path, cap, i)] + sub + ChildRows(parentId, e, path, cap, i + 1, base + 1 + |sub|)
  {
  }

  /** The same, with the position where the rows of the next children start given. */
  lemma ChildRowsAt(parentId: nat, e: PyElement, path: PyPath, cap: Option<PyElement>, i: nat, base: nat, next: nat)
    requires i < |e.children| && next == base + 1 + |SubRows(e, path, cap, i, base)|
    ensures ChildRows(parentId, e, path, cap, i, base) ==
      [ChildRow(parentId, e, path, cap, i)] + SubRows(e, path, cap, i, base) + ChildRows(parentId, e, path, cap, i + 1, next)
  {
    ChildRowsUnfold(parentId, e, path, cap, i, base);
  }

  /** Appending the first row of a chunk and the rows below it leaves the rest of the chunk to append. */
  lemma Regroup(before: seq<Row>, rows: seq<Row>, all: seq<Row>, chunk: seq<Row>, row: Row, sub: seq<Row>, rest: seq<Row>)
    requires before + chunk == all && chunk == [row] + sub + rest && rows == before + [row] + sub
    ensures rows + rest == all && |rows| == |before| + 1 + |sub|
    ensures forall k :: 0 <= k < |before| ==> rows[k] == before[k]
  {
  }

  /** The rows `rebuild_tree` produces: the root, labelled with its tag and without a value, then its descendants. */
  function TreeRows(config: PyElement, caps: Option<PyElement>): seq<Row>
  {
    [Row(None, config.tag, [], [], caps)] + ChildRows(0, config, [], caps, 0, 1)
  }

  /** The number of elements strictly below `e`. */
  function Descendants(e: PyElement): nat
    decreases e, |e.children| + 1
  {
    DescendantsFrom(e, 0)
  }

  /** The number of elements in the subtrees of the children `i..` of `e`. */
  function DescendantsFrom(e: PyElement, i: nat): nat
    decreases e, |e.children| - i
  {
    if i >= |e.children| then 0 else 1 + Descendants(e.children[i]) + DescendantsFrom(e, i + 1)
  }

  /** Every element below `e` gets exactly one row. */
  lemma {:induction false} ChildRowsCount(parentId: nat, e: PyElement, path: PyPath, cap: Option<PyElement>, i: nat, base: nat)
    ensures |ChildRows(parentId, e, path, cap, i, base)| == DescendantsFrom(e, i)
    decreases e, |e.children| - i
  {
    if i < |e.children| {
      var c := e.children[i];
      var sub := SubRows(e, path, cap, i, base);
      if |c.children| > 0 {
        ChildRowsCount(base, c, path + [i], ChildCapability(cap, c.tag), 0, base + 1);
      }
      assert |sub| == Descendants(c);
      ChildRowsCount(parentId, e, path, cap, i + 1, base + 1 + |sub|);
    }
  }

  /** The tree has one row per element of the configuration document. */
  lemma TreeRowsCount(config: PyElement, caps: Option<PyElement>)
    ensures |TreeRows(config, caps)| == 1 + Descendants(config)
  {
    ChildRowsCount(0, config, [], caps, 0, 1);
  }

  /** The row names an element of the document by its tag and shows that element's display value. */
  predicate ShowsElement(config: PyElement, r: Row) {
    PyValidPath(config, r.el) && r.text == PyAt(config, r.el).tag && r.shown == DisplayValue(PyAt(config, r.el))
  }

  /** Every row of `rs` names an element of the document and shows its display value. */
  predicate AllShowing(config: PyElement, rs: seq<Row>) {
    forall r :: r in rs ==> ShowsElement(config, r)
  }

  /**
   * Every row below `e` names an element of the document at its position
   * and shows that element's display value: empty for a folder, the
   * stripped text for a leaf.
   */
  lemma {:induction false} ChildRowsShowValues(config: PyElement, parentId: nat, e: PyElement, path: PyPath,
                                               cap: Option<PyElement>, i: nat, base: nat)
    requires PyValidPath(config, path) && PyAt(config, path) == e
    ensures AllShowing(config, ChildRows(parentId, e, path, cap, i, base))
    decreases e, |e.children| - i, 1
  {
    if i < |e.children| {
      var sub := SubRows(e, path, cap, i, base);
      ChildRowShows(config, parentId, e, path, cap, i);
      SubRowsShowValues(config, e, path, cap, i, base);
      ChildRowsShowValues(config, parentId, e, path, cap, i + 1, base + 1 + |sub|);
      ChildRowsUnfold(parentId, e, path, cap, i, base);
      AllShow(config, ChildRow(parentId, e, path, cap, i), sub, ChildRows(parentId, e, path, cap, i + 1, base + 1 + |sub|));
    }
  }

  /** The rows below one child show their elements' values. */
  lemma {:induction false} SubRowsShowValues(config: PyElement, e: PyElement, path: PyPath,
                                             cap: Option<PyElement>, i: nat, base: nat)
    requires PyValidPath(config, path) && PyAt(config, path) == e && i < |e.children|
    ensures AllShowing(config, SubRows(e, path, cap, i, base))
    decreases e, |e.children| - i, 0
  {
    var c := e.children[i];
    if |c.children| > 0 {
      PyAtSnoc(config, path, i);
      ChildRowsShowValues(config, base, c, path + [i], ChildCapability(cap, c.tag), 0, base + 1);
    }
  }

  lemma ChildRowShows(config: PyElement, parentId: nat, e: PyElement, path: PyPath, cap: Option<PyElement>, i: nat)
    requires PyValidPath(config, path) && PyAt(config, path) == e && i < |e.children|
    ensures ShowsElement(config, ChildRow(parentId, e, path, cap, i))
  {
    PyAtSnoc(config, path, i);
  }

  lemma AllShow(config: PyElement, row: Row, sub: seq<Row>, rest: seq<Row>)
    requires ShowsElement(config, row) && AllShowing(config, sub) && AllShowing(config, rest)
    ensures AllShowing(config, [row] + sub + rest)
  {
  }

  /** A freshly built tree shows, for each element, its display value. */
  lemma TreeRowsShowValues(config: PyElement, caps: Option<PyElement>)
    ensures forall k :: 1 <= k < |TreeRows(config, caps)| ==> ShowsElement(config, TreeRows(config, caps)[k])
  {
    var rows := TreeRows(config, caps);
    ChildRowsShowValues(config, 0, config, [], caps, 0, 1);
    forall k | 1 <= k < |rows| ensures ShowsElement(config, rows[k]) {
      assert rows[k] in ChildRows(0, config, [], caps, 0, 1);
    }
  }

  /**
   * Row `k` is consistent with the document: its element exists and its
   * label is the element's tag; the root row has no parent and stands for
   * the document root; any other row has an earlier parent whose element is
   * one level up, and its capability element is the first same-tagged child
   * of the parent's.
   */
  predicate RowLinked(rows: seq<Row>, k: nat, config: PyElement)
    requires k < |rows|
  {
    var r := rows[k];
    PyValidPath(config, r.el) && r.text == PyAt(config, r.el).tag &&
    match r.parent
    case None => k == 0 && r.el == []
    case Some(j) =>
      j < k && |r.el| == |rows[j].el| + 1 && r.el[..|rows[j].el|] == rows[j].el &&
      r.cap == ChildCapability(rows[j].cap, r.text)
  }

  /** A tree with a root row carrying the capabilities root, every row consistent with the document. */
  predicate RowsOk(rows: seq<Row>, config: PyElement, caps: Option<PyElement>) {
    |rows| >= 1 && rows[0].cap == caps && forall k :: 0 <= k < |rows| ==> RowLinked(rows, k, config)
  }

  /** Every parent item was inserted before its children. */
  predicate ParentsBefore(rows: seq<Row>) {
    forall k :: 0 <= k < |rows| && rows[k].parent.Some? ==> rows[k].parent.value < k
  }

  lemma RowsOkParentsBefore(rows: seq<Row>, config: PyElement, caps: Option<PyElement>)
    requires RowsOk(rows, config, caps)
    ensures ParentsBefore(rows) && rows[0].parent.None? && rows[0].el == []
  {
    assert RowLinked(rows, 0, config);
    forall k | 0 <= k < |rows| && rows[k].parent.Some? ensures rows[k].parent.value < k {
      assert RowLinked(rows, k, config);
    }
  }

  /** A row consistent with the rows before it extends a consistent tree. */
  lemma AppendLinked(rows: seq<Row>, config: PyElement, caps: Option<PyElement>, r: Row)
    requires RowsOk(rows, config, caps) && RowLinked(rows + [r], |rows|, config)
    ensures RowsOk(rows + [r], config, caps)
  {
    var rows' := rows + [r];
    forall k | 0 <= k < |rows'| ensures RowLinked(rows', k, config) {
      if k < |rows| {
        assert RowLinked(rows, k, config);
        assert rows'[k] == rows[k];
        if rows[k].parent.Some? {
          assert rows'[rows[k].parent.value] == rows[rows[k].parent.value];
        }
      }
    }
  }

  /** The row of a child of the element of row `parentId` extends a consistent tree. */
  lemma AppendChildRow(rows: seq<Row>, config: PyElement, caps: Option<PyElement>,
                       parentId: nat, e: PyElement, path: PyPath, cap: Option<PyElement>, i: nat)
    requires RowsOk(rows, config, caps) && parentId < |rows| && rows[parentId].el == path && rows[parentId].cap == cap
    requires PyValidPath(config, path) && PyAt(config, path) == e && i < |e.children|
    ensures RowsOk(rows + [ChildRow(parentId, e, path, cap, i)], config, caps)
    ensures PyValidPath(config, path + [i]) && PyAt(config, path + [i]) == e.children[i]
  {
    var row := ChildRow(parentId, e, path, cap, i);
    PyAtSnoc(config, path, i);
    assert (path + [i])[..|path|] == path;
    AppendLinked(rows, config, caps, row);
  }

  /**
   * Writing a text into the document and a value into one row's value
   * column keeps every row consistent: labels and positions depend only on
   * tags and child counts.
   */
  lemma RowsOkAfterWrite(rows: seq<Row>, config: PyElement, caps: Option<PyElement>,
                         item: nat, p: PyPath, v: Option<string>, shown: string)
    requires RowsOk(rows, config, caps) && item < |rows| && PyValidPath(config, p)
    ensures RowsOk(rows[item := rows[item].(shown := shown)], SetText(config, p, v), caps)
  {
    var rows' := rows[item := rows[item].(shown := shown)];
    var config' := SetText(config, p, v);
    forall k | 0 <= k < |rows'| ensures RowLinked(rows', k, config') {
      assert RowLinked(rows, k, config);
      SetTextKeepsShape(config, p, v, rows[k].el);
    }
  }

  // ---------------------------------------------------------------- modules

  /**
   * The `while True` walk of `get_context_module` from `curr`: the first
   * item on the way up whose parent is the root; none when the walk leaves
   * the tree first.
   */
  function ModuleFrom(rows: seq<Row>, curr: nat): Option<Context>
    requires ParentsBefore(rows) && curr < |rows|
    decreases curr
  {
    match rows[curr].parent
    case None => None
    case Some(j) => if j == 0 then Some(Context(rows[curr].text, rows[curr].el)) else ModuleFrom(rows, j)
  }

  /** `get_context_module(item)`: nothing for an empty tree, the root for the root item, otherwise the walk. */
  function ContextOf(rows: seq<Row>, item: nat): Option<Context>
    requires ParentsBefore(rows) && (rows == [] || item < |rows|)
  {
    if rows == [] then None
    else if item == 0 then Some(Context(rows[0].text, rows[0].el))
    else ModuleFrom(rows, item)
  }

  /**
   * In a consistent tree the walk from any item other than the root always
   * finds a module: the top-level element containing the item, labelled
   * with its tag.
   */
  lemma {:induction false} ModuleIsTopLevelAncestor(rows: seq<Row>, config: PyElement, caps: Option<PyElement>, item: nat)
    requires RowsOk(rows, config, caps) && 0 < item < |rows|
    ensures ParentsBefore(rows)
    ensures ModuleFrom(rows, item).Some?
    ensures var m := ModuleFrom(rows, item).value;
      |rows[item].el| >= 1 && m.el == rows[item].el[..1] && PyValidPath(config, m.el) && m.name == PyAt(config, m.el).tag
    decreases item
  {
    RowsOkParentsBefore(rows, config, caps);
    assert RowLinked(rows, item, config);
    var j := rows[item].parent.value;
    assert RowLinked(rows, j, config);
    if j != 0 {
      ModuleIsTopLevelAncestor(rows, config, caps, j);
      var pj := rows[j].el;
      assert rows[item].el[..1] == rows[item].el[..|pj|][..1];
    } else {
      assert rows[item].el[..1] == rows[item].el;
    }
  }

  /** The root item stands for the whole document. */
  lemma RootContext(rows: seq<Row>, config: PyElement, caps: Option<PyElement>)
    requires RowsOk(rows, config, caps)
    ensures ParentsBefore(rows)
    ensures ContextOf(rows, 0) == Some(Context(config.tag, []))
  {
    RowsOkParentsBefore(rows, config, caps);
    assert RowLinked(rows, 0, config);
  }

  /** `module_name and module_name != self.config_root.tag`: a module other than the root that may be sent. */
  predicate Sendable(ctx: Option<Context>, rootTag: string) {
    ctx.Some? && ctx.value.name != [] && ctx.value.name != rootTag
  }

  /** The API path shown for a selection: the module's path, or the base path for the root. */
  function ApiPath(ctx: Option<Context>, rootTag: string): (r: string)
    ensures Sendable(ctx, rootTag) ==> r == App.BASE_PATH + "/" + ctx.value.name
    ensures !Sendable(ctx, rootTag) ==> r == App.BASE_PATH
  {
    if Sendable(ctx, rootTag) then App.BASE_PATH + "/" + ctx.value.name else App.BASE_PATH
  }

  /**
   * The module the buttons of `item` act on, when `do_put` and
   * `show_loxone` go ahead: the context of the item unless it is missing,
   * unnamed or named like the root. It is never the root item's own
   * context: it is the top-level element containing the item, named by its
   * tag.
   */
  function SendTarget(rows: seq<Row>, config: PyElement, caps: Option<PyElement>, item: nat): (r: Option<Context>)
    requires RowsOk(rows, config, caps) && item < |rows|
    ensures 0 < item ==> |rows[item].el| >= 1 && PyValidPath(config, rows[item].el[..1])
    ensures r.Some? <==>
      0 < item && PyAt(config, rows[item].el[..1]).tag != [] && PyAt(config, rows[item].el[..1]).tag != config.tag
    ensures r.Some? ==> r.value == Context(PyAt(config, rows[item].el[..1]).tag, rows[item].el[..1])
  {
    RowsOkParentsBefore(rows, config, caps);
    RootContext(rows, config, caps);
    if item == 0 then
      None
    else
      ModuleIsTopLevelAncestor(rows, config, caps, item);
      var ctx := ContextOf(rows, item);
      if Sendable(ctx, config.tag) then ctx else None
  }

  /**
   * The module element that `do_put` and `show_loxone` serialise once the
   * edited value `v` is written into the element at `el`: the element at
   * `top`, a prefix of `el`, with the same tag as before and carrying
   * the new text at the item's place inside it; it is the document's
   * module with only that text written, so every other element in it keeps
   * its tag, attributes and text.
   */
  function EditedModule(config: PyElement, el: PyPath, top: PyPath, v: string): (m: PyElement)
    requires PyValidPath(config, el) && |top| <= |el| && top == el[..|top|]
    ensures PyValidPath(config, top) && m.tag == PyAt(config, top).tag
    ensures PyValidPath(m, el[|top|..]) && PyAt(m, el[|top|..]) == PyAt(config, el).(text := Some(v))
    ensures PyValidPath(PyAt(config, top), el[|top|..]) && m == SetText(PyAt(config, top), el[|top|..], Some(v))
  {
    var rest := el[|top|..];
    assert top + rest == el;
    PyAtConcat(config, top, rest);
    var edited := SetText(config, el, Some(v));
    SetTextBelow(config, top, rest, Some(v));
    PyAt(edited, top)
  }

  /** `r.status_code in (200, 201)`, or an exception: the cases in which `do_put` keeps the value written. */
  predicate KeepsEdit(outcome: PutOutcome) {
    outcome.Raised? || outcome.code == 200 || outcome.code == 201
  }

  /** What a value column shows for a text: `str(None)` for a missing one. */
  function Shown(v: Option<string>): (r: string)
    ensures v.Some? ==> r == v.value
    ensures v.None? ==> r == "None"
  {
    if v.Some? then v.value else "None"
  }

  /** The search loop of `_add_nodes_recursive`: the first child of the context with the tag, if any. */
  method MatchCapability(capCtx: Option<PyElement>, tag: string) returns (childCap: Option<PyElement>)
    ensures childCap == ChildCapability(capCtx, tag)
  {
    childCap := None;
    if capCtx.Some? {
      var cs := capCtx.value.children;
      for k := 0 to |cs|
        invariant forall j :: 0 <= j < k ==> cs[j].tag != tag
      {
        if cs[k].tag == tag {
          childCap := Some(cs[k]);
          break;
        }
      }
    }
  }

  /**
   * The row `_add_nodes_recursive` inserts for the child `i` of `xmlEl`:
   * its tag, its stripped text (empty for a folder), its position and its
   * capability element.
   */
  method MakeRow(parentId: nat, xmlEl: PyElement, path: PyPath, capCtx: Option<PyElement>, i: nat) returns (row: Row)
    requires i < |xmlEl.children|
    ensures row == ChildRow(parentId, xmlEl, path, capCtx, i)
  {
    var child := xmlEl.children[i];
    var textVal := Trim(child.text.GetOr([]));
    var childCap := MatchCapability(capCtx, child.tag);
    var hasChildren := |child.children| > 0;
    var displayVal := if hasChildren then [] else textVal;
    row := Row(Some(parentId), child.tag, displayVal, path + [i], childCap);
  }

  class HikSmartExplorer {
    var ip: string
    var user: string
    var pass: string
    var configRoot: Option<PyElement>
    var capsRoot: Option<PyElement>
    /** The tree widget's items with their `tree_map` entries, indexed by item id. */
    var rows: seq<Row>
    /** The API path label, once something was selected. */
    var apiPath: Option<string>
    var editValue: string
    /** The buttons of the editor, if the last selection was a leaf. */
    var editor: Option<Editor>
    /** The Loxone dialogs opened, oldest first. */
    var dialogs: seq<LoxoneDialog>

    /**
     * Before a configuration is loaded there is no tree and no editor;
     * afterwards the rows are consistent with the configuration, and the
     * editor's buttons belong to a leaf and carry that leaf's editor kind.
     */
    predicate Valid()
      reads this
    {
      (configRoot.None? ==> rows == [] && editor.None?) &&
      (configRoot.Some? ==> RowsOk(rows, configRoot.value, capsRoot)) &&
      (editor.Some? ==>
        configRoot.Some? && editor.value.item < |rows| &&
        RowLinked(rows, editor.value.item, configRoot.value) &&
        PyAt(configRoot.value, rows[editor.value.item].el).children == [] &&
        editor.value.kind == EditKind(rows[editor.value.item].cap))
    }

    constructor ()
      ensures Valid()
      ensures ip == "192.168.10.150" && user == "admin" && pass == ""
      ensures configRoot.None? && capsRoot.None? && rows == []
      ensures apiPath.None? && editValue == "" && editor.None? && dialogs == []
    {
      ip := "192.168.10.150";
      user := "admin";
      pass := "";
      configRoot := None;
      capsRoot := None;
      rows := [];
      apiPath := None;
      editValue := "";
      editor := None;
      dialogs := [];
    }

    /** The IP, user and password entries. */
    method SetConnection(newIp: string, newUser: string, newPass: string)
      requires Valid()
      modifies this
      ensures Valid()
      ensures ip == newIp && user == newUser && pass == newPass
      ensures configRoot == old(configRoot) && capsRoot == old(capsRoot) && rows == old(rows)
      ensures apiPath == old(apiPath) && editValue == old(editValue) && editor == old(editor) && dialogs == old(dialogs)
    {
      ip, user, pass := newIp, newUser, newPass;
    }

    /** The editor's entry, option list or slider writing `var_edit_value`. */
    method Edit(v: string)
      requires Valid()
      modifies this
      ensures Valid() && editValue == v
      ensures ip == old(ip) && user == old(user) && pass == old(pass)
      ensures configRoot == old(configRoot) && capsRoot == old(capsRoot) && rows == old(rows)
      ensures apiPath == old(apiPath) && editor == old(editor) && dialogs == old(dialogs)
    {
      editValue := v;
    }

    /**
     * `_add_nodes_recursive`: a row for every child of `xmlEl` (the element
     * at `path`, shown by item `parentId`), each followed by the rows of its
     * own children, keeping the tree consistent.
     */
    method AddNodesRecursive(parentId: nat, xmlEl: PyElement, path: PyPath, capCtx: Option<PyElement>)
      requires configRoot.Some? && RowsOk(rows, configRoot.value, capsRoot)
      requires parentId < |rows| && rows[parentId].el == path && rows[parentId].cap == capCtx
      requires PyValidPath(configRoot.value, path) && PyAt(configRoot.value, path) == xmlEl
      modifies this
      ensures configRoot == old(configRoot) && capsRoot == old(capsRoot)
      ensures rows == old(rows) + ChildRows(parentId, xmlEl, path, capCtx, 0, |old(rows)|)
      ensures RowsOk(rows, configRoot.value, capsRoot)
      ensures ip == old(ip) && user == old(user) && pass == old(pass)
      ensures apiPath == old(apiPath) && editValue == old(editValue) && editor == old(editor) && dialogs == old(dialogs)
      decreases xmlEl, 1
    {
      for i := 0 to |xmlEl.children|
        invariant configRoot == old(configRoot) && capsRoot == old(capsRoot)
        invariant ip == old(ip) && user == old(user) && pass == old(pass)
        invariant apiPath == old(apiPath) && editValue == old(editValue) && editor == old(editor) && dialogs == old(dialogs)
        invariant parentId < |rows| && rows[parentId].el == path && rows[parentId].cap == capCtx
        invariant RowsOk(rows, configRoot.value, capsRoot)
        invariant rows + ChildRows(parentId, xmlEl, path, capCtx, i, |rows|) ==
          old(rows) + ChildRows(parentId, xmlEl, path, capCtx, 0, |old(rows)|)
      {
        ghost var before := rows;
        AddChild(parentId, xmlEl, path, capCtx, i);
        ChildRowsAt(parentId, xmlEl, path, capCtx, i, |before|, |rows|);
        Regroup(before, rows, old(rows) + ChildRows(parentId, xmlEl, path, capCtx, 0, |old(rows)|),
          ChildRows(parentId, xmlEl, path, capCtx, i, |before|), ChildRow(parentId, xmlEl, path, capCtx, i),
          SubRows(xmlEl, path, capCtx, i, |before|), ChildRows(parentId, xmlEl, path, capCtx, i + 1, |rows|));
      }
    }

    /**
     * One turn of the loop of `_add_nodes_recursive`: the row of child `i`
     * with its stripped text (empty for a folder) and its capability
     * element, then, for a folder, the rows below it.
     */
    method AddChild(parentId: nat, xmlEl: PyElement, path: PyPath, capCtx: Option<PyElement>, i: nat)
      requires configRoot.Some? && RowsOk(rows, configRoot.value, capsRoot)
      requires parentId < |rows| && rows[parentId].el == path && rows[parentId].cap == capCtx
      requires PyValidPath(configRoot.value, path) && PyAt(configRoot.value, path) == xmlEl && i < |xmlEl.children|
      modifies this
      ensures configRoot == old(configRoot) && capsRoot == old(capsRoot)
      ensures rows == old(rows) + [ChildRow(parentId, xmlEl, path, capCtx, i)] + SubRows(xmlEl, path, capCtx, i, |old(rows)|)
      ensures RowsOk(rows, configRoot.value, capsRoot)
      ensures ip == old(ip) && user == old(user) && pass == old(pass)
      ensures apiPath == old(apiPath) && editValue == old(editValue) && editor == old(editor) && dialogs == old(dialogs)
      decreases xmlEl, 0
    {
      var child := xmlEl.children[i];
      var row := MakeRow(parentId, xmlEl, path, capCtx, i);
      var nodeId := |rows|;
      AppendChildRow(rows, configRoot.value, capsRoot, parentId, xmlEl, path, capCtx, i);
      rows := rows + [row];
      if |child.children| > 0 {
        AddNodesRecursive(nodeId, child, path + [i], row.cap);
      }
    }

    /**
     * `rebuild_tree`: the tree is emptied and, when a configuration is
     * loaded, refilled with the root row and the rows below it.
     */
    method RebuildTree()
      requires configRoot.None? ==> editor.None?
      modifies this
      ensures configRoot.Some? ==> rows == TreeRows(configRoot.value, capsRoot) && RowsOk(rows, configRoot.value, capsRoot)
      ensures configRoot.None? ==> rows == []
      ensures ip == old(ip) && user == old(user) && pass == old(pass)
      ensures configRoot == old(configRoot) && capsRoot == old(capsRoot)
      ensures apiPath == old(apiPath) && editValue == old(editValue) && editor == old(editor) && dialogs == old(dialogs)
    {
      rows := [];
      if configRoot.None? {
        return;
      }
      var config := configRoot.value;
      rows := [Row(None, config.tag, [], [], capsRoot)];
      assert RowLinked(rows, 0, config);
      AddNodesRecursive(0, config, [], capsRoot);
    }

    /**
     * `load_data`: the configuration is read from the camera's base path.
     * When it arrived and parsed (`fetched`), its tags lose their `{uri}`
     * part and it becomes the configuration; the capability document
     * (`caps`, missing when that request failed or did not answer 200) is
     * treated the same way; the tree is rebuilt. The editor's buttons of
     * the old tree name items that no longer exist, so pressing them raises
     * before anything changes: the model drops them. When the configuration
     * did not arrive nothing changes. Returns the URLs requested.
     */
    method LoadData(fetched: Option<PyElement>, caps: Option<PyElement>) returns (requested: seq<string>)
      requires Valid()
      modifies this
      ensures Valid()
      ensures fetched.None? ==> requested == [SafeUrl(ip, App.BASE_PATH)]
      ensures fetched.Some? ==>
        requested == [SafeUrl(ip, App.BASE_PATH), SafeUrl(ip, App.BASE_PATH) + "/capabilities"]
      ensures fetched.Some? ==>
        configRoot == Some(Localized(fetched.value)) &&
        capsRoot == (if caps.Some? then Some(Localized(caps.value)) else None) &&
        rows == TreeRows(configRoot.value, capsRoot) && editor.None?
      ensures fetched.None? ==>
        configRoot == old(configRoot) && capsRoot == old(capsRoot) && rows == old(rows) && editor == old(editor)
      ensures ip == old(ip) && user == old(user) && pass == old(pass)
      ensures apiPath == old(apiPath) && editValue == old(editValue) && dialogs == old(dialogs)
    {
      var url := SafeUrl(ip, App.BASE_PATH);
      requested := [url];
      if fetched.None? {
        return;
      }
      var config := LocalizeTags(fetched.value);
      requested := requested + [url + "/capabilities"];
      var capsEl: Option<PyElement> := None;
      if caps.Some? {
        var c := LocalizeTags(caps.value);
        capsEl := Some(c);
      }
      Install(config, capsEl);
    }

    /**
     * The end of `load_data`: the documents become the configuration and
     * the capabilities, and the tree is rebuilt for them.
     */
    method Install(config: PyElement, capsEl: Option<PyElement>)
      modifies this
      ensures Valid()
      ensures configRoot == Some(config) && capsRoot == capsEl && rows == TreeRows(config, capsEl) && editor.None?
      ensures ip == old(ip) && user == old(user) && pass == old(pass)
      ensures apiPath == old(apiPath) && editValue == old(editValue) && dialogs == old(dialogs)
    {
      configRoot, capsRoot, editor := Some(config), capsEl, None;
      RebuildTree();
    }

    /**
     * `get_context_module`: nothing for an empty tree, the root for the
     * root item, otherwise the walk up the parents to the item below the
     * root.
     */
    method GetContextModule(item: nat) returns (ctx: Option<Context>)
      requires ParentsBefore(rows) && (rows == [] || item < |rows|)
      ensures ctx == ContextOf(rows, item)
    {
      if rows == [] {
        return None;
      }
      if item == 0 {
        return Some(Context(rows[0].text, rows[0].el));
      }
      var curr := item;
      while true
        invariant 0 < curr < |rows| && ModuleFrom(rows, curr) == ModuleFrom(rows, item)
        decreases curr
      {
        var parent := rows[curr].parent;
        if parent == Some(0) {
          return Some(Context(rows[curr].text, rows[curr].el));
        }
        if parent.None? {
          return None;
        }
        curr := parent.value;
      }
    }

    /**
     * `on_tree_select`: the API path label follows the item's module; a
     * folder gets no editor; a leaf's stripped text becomes the value being
     * edited and the editor's buttons capture the item and its editor kind.
     */
    method OnTreeSelect(item: nat)
      requires Valid() && configRoot.Some? && item < |rows|
      modifies this
      ensures configRoot == old(configRoot) && capsRoot == old(capsRoot) && rows == old(rows) && dialogs == old(dialogs)
      ensures Valid() && RowLinked(rows, item, configRoot.value)
      ensures ParentsBefore(rows) && apiPath == Some(ApiPath(ContextOf(rows, item), configRoot.value.tag))
      ensures var leaf := PyAt(configRoot.value, rows[item].el);
        leaf.children != [] ==> editor.None? && editValue == old(editValue)
      ensures var leaf := PyAt(configRoot.value, rows[item].el);
        leaf.children == [] ==>
          editor == Some(Editor(item, EditKind(rows[item].cap))) && editValue == Trim(leaf.text.GetOr([]))
      ensures ip == old(ip) && user == old(user) && pass == old(pass)
    {
      var config := configRoot.value;
      RowsOkParentsBefore(rows, config, capsRoot);
      assert RowLinked(rows, item, config);
      var ctx := GetContextModule(item);
      apiPath := Some(ApiPath(ctx, config.tag));
      var el := PyAt(config, rows[item].el);
      if |el.children| > 0 {
        editor := None;
        return;
      }
      editValue := Trim(el.text.GetOr([]));
      editor := Some(Editor(item, EditKind(rows[item].cap)));
    }

    /**
     * `do_put`, pressed on the editor's buttons: unless the item's module is
     * missing or is the root, the edited value is written into the item's
     * element and value column, and the module with it is sent once the
     * prompt is confirmed. An answer 200 or 201, or an exception, keeps the
     * value; any other status, or a refused prompt, writes the old text back,
     * which leaves the document as it was and shows the old text (`None`
     * when there was none). Returns the request sent, if any.
     */
    method DoPut(tostring: PyElement -> string, confirmed: bool, outcome: PutOutcome) returns (request: Option<PutRequest>)
      requires Valid()
      modifies this
      ensures Valid()
      ensures ip == old(ip) && user == old(user) && pass == old(pass) && capsRoot == old(capsRoot)
      ensures apiPath == old(apiPath) && editValue == old(editValue) && editor == old(editor) && dialogs == old(dialogs)
      ensures old(editor).None? ==> request.None? && configRoot == old(configRoot) && rows == old(rows)
      ensures old(editor).Some? ==>
        var item := old(editor).value.item;
        var config := old(configRoot).value;
        var target := SendTarget(old(rows), config, old(capsRoot), item);
        target.None? ==> request.None? && configRoot == old(configRoot) && rows == old(rows)
      ensures old(editor).Some? ==>
        var item := old(editor).value.item;
        var config := old(configRoot).value;
        var target := SendTarget(old(rows), config, old(capsRoot), item);
        var el := old(rows)[item].el;
        target.Some? ==>
          (request.Some? <==> confirmed) &&
          (confirmed ==>
            request.value == PutRequest(SafeUrl(ip, App.BASE_PATH + "/" + target.value.name),
                                        CleanXml(tostring(EditedModule(config, el, target.value.el, editValue))))) &&
          (confirmed && KeepsEdit(outcome) ==>
            configRoot == Some(SetText(config, el, Some(editValue))) &&
            rows == old(rows)[item := old(rows)[item].(shown := editValue)]) &&
          (!(confirmed && KeepsEdit(outcome)) ==>
            configRoot == old(configRoot) &&
            rows == old(rows)[item := old(rows)[item].(shown := Shown(PyAt(config, el).text))])
    {
      request := None;
      if editor.None? {
        return;
      }
      var item := editor.value.item;
      var config := configRoot.value;
      RowsOkParentsBefore(rows, config, capsRoot);
      var ctx := GetContextModule(item);
      if ctx.None? || ctx.value.name == [] || ctx.value.name == config.tag {
        return;
      }
      request := WriteAndSend(tostring, item, ctx.value, confirmed, outcome);
    }

    /**
     * The part of `do_put` past the module check: the edited value goes into
     * the item's element and value column, the module is serialised and,
     * once confirmed, sent; the answer decides whether the old text is
     * written back.
     */
    method WriteAndSend(tostring: PyElement -> string, item: nat, target: Context, confirmed: bool, outcome: PutOutcome)
      returns (request: Option<PutRequest>)
      requires Valid() && editor.Some? && editor.value.item == item
      requires SendTarget(rows, configRoot.value, capsRoot, item) == Some(target)
      modifies this
      ensures Valid()
      ensures ip == old(ip) && user == old(user) && pass == old(pass) && capsRoot == old(capsRoot)
      ensures apiPath == old(apiPath) && editValue == old(editValue) && editor == old(editor) && dialogs == old(dialogs)
      ensures var config := old(configRoot).value;
        var el := old(rows)[item].el;
        (request.Some? <==> confirmed) &&
        (confirmed ==>
          request.value == PutRequest(SafeUrl(ip, App.BASE_PATH + "/" + target.name),
                                      CleanXml(tostring(EditedModule(config, el, target.el, editValue))))) &&
        (confirmed && KeepsEdit(outcome) ==>
          configRoot == Some(SetText(config, el, Some(editValue))) &&
          rows == old(rows)[item := old(rows)[item].(shown := editValue)]) &&
        (!(confirmed && KeepsEdit(outcome)) ==>
          configRoot == old(configRoot) &&
          rows == old(rows)[item := old(rows)[item].(shown := Shown(PyAt(config, el).text))])
    {
      var config := configRoot.value;
      var el := rows[item].el;
      var xmlPayload := CleanXml(tostring(EditedModule(config, el, target.el, editValue)));
      var url := SafeUrl(ip, App.BASE_PATH + "/" + target.name);
      request := None;
      if confirmed {
        request := Some(PutRequest(url, xmlPayload));
      }
      if confirmed && KeepsEdit(outcome) {
        KeepWrite(item);
      } else {
        WriteThenRestore(item);
      }
    }

    /** The edited value stays: written into the item's element and shown in its value column. */
    method KeepWrite(item: nat)
      requires Valid() && editor.Some? && editor.value.item == item
      modifies this
      ensures Valid()
      ensures ip == old(ip) && user == old(user) && pass == old(pass) && capsRoot == old(capsRoot)
      ensures apiPath == old(apiPath) && editValue == old(editValue) && editor == old(editor) && dialogs == old(dialogs)
      ensures configRoot == Some(SetText(old(configRoot).value, old(rows)[item].el, Some(editValue)))
      ensures rows == old(rows)[item := old(rows)[item].(shown := editValue)]
    {
      var config := configRoot.value;
      var el := rows[item].el;
      RowsOkAfterWrite(rows, config, capsRoot, item, el, Some(editValue), editValue);
      configRoot, rows := Some(SetText(config, el, Some(editValue))), rows[item := rows[item].(shown := editValue)];
    }

    /**
     * The edited value written into the item's element and value column,
     * then the old text written back: the document ends as it was and the
     * value column shows the old text.
     */
    method WriteThenRestore(item: nat)
      requires Valid() && editor.Some? && editor.value.item == item
      modifies this
      ensures Valid()
      ensures ip == old(ip) && user == old(user) && pass == old(pass) && capsRoot == old(capsRoot)
      ensures apiPath == old(apiPath) && editValue == old(editValue) && editor == old(editor) && dialogs == old(dialogs)
      ensures configRoot == old(configRoot)
      ensures rows == old(rows)[item := old(rows)[item].(shown := Shown(PyAt(old(configRoot).value, old(rows)[item].el).text))]
    {
      var config := configRoot.value;
      var el := rows[item].el;
      var oldVal := PyAt(config, el).text;
      var edited := SetText(config, el, Some(editValue));
      var editedRows := rows[item := rows[item].(shown := editValue)];
      RowsOkAfterWrite(rows, config, capsRoot, item, el, Some(editValue), editValue);
      RestoreRow(editedRows, edited, capsRoot, item, config, Some(editValue), oldVal);
      configRoot, rows := Some(config), editedRows[item := editedRows[item].(shown := Shown(oldVal))];
    }

    /**
     * `show_loxone`, pressed on the editor's buttons: unless the item's
     * module is missing or is the root, a dialog opens with the camera's
     * address carrying the credentials, the module's API path, and the
     * module serialised with the edited value written in; for a slider the
     * value inside the item's own tag becomes the Loxone placeholder. The
     * old text is written back, so the document and the tree end as they
     * were.
     */
    method ShowLoxone(tostring: PyElement -> string)
      requires Valid()
      modifies this
      ensures Valid()
      ensures ip == old(ip) && user == old(user) && pass == old(pass)
      ensures configRoot == old(configRoot) && capsRoot == old(capsRoot) && rows == old(rows)
      ensures apiPath == old(apiPath) && editValue == old(editValue) && editor == old(editor)
      ensures editor.None? ==> dialogs == old(dialogs)
      ensures editor.Some? ==>
        var item := editor.value.item;
        var config := configRoot.value;
        var target := SendTarget(rows, config, capsRoot, item);
        target.None? ==> dialogs == old(dialogs)
      ensures editor.Some? ==>
        var item := editor.value.item;
        var config := configRoot.value;
        var target := SendTarget(rows, config, capsRoot, item);
        var el := rows[item].el;
        target.Some? ==>
          var xml := CleanXml(tostring(EditedModule(config, el, target.value.el, editValue)));
          dialogs == old(dialogs) + [LoxoneDialog(
            "http://" + user + ":" + pass + "@" + ip,
            App.BASE_PATH + "/" + target.value.name,
            if editor.value.kind.RangeEdit? then DimmerBody(xml, PyAt(config, el).tag, editValue) else xml)]
    {
      if editor.None? {
        return;
      }
      var item := editor.value.item;
      var kind := editor.value.kind;
      var config := configRoot.value;
      RowsOkParentsBefore(rows, config, capsRoot);
      RootContext(rows, config, capsRoot);
      var ctx := GetContextModule(item);
      if ctx.None? || ctx.value.name == [] || ctx.value.name == config.tag {
        return;
      }
      var loxAddr := "http://" + user + ":" + pass + "@" + ip;
      var loxInstr := App.BASE_PATH + "/" + ctx.value.name;
      var xmlBody := LoxoneBody(tostring, item, ctx.value);
      dialogs := dialogs + [LoxoneDialog(loxAddr, loxInstr, xmlBody)];
    }

    /**
     * The body of the Loxone dialog: the module serialised with the edited
     * value written into the item's element, and for a slider the value
     * inside the item's own tag turned into the placeholder.
     */
    method LoxoneBody(tostring: PyElement -> string, item: nat, target: Context) returns (xmlBody: string)
      requires Valid() && editor.Some? && editor.value.item == item
      requires SendTarget(rows, configRoot.value, capsRoot, item) == Some(target)
      ensures var config := configRoot.value;
        var el := rows[item].el;
        var xml := CleanXml(tostring(EditedModule(config, el, target.el, editValue)));
        xmlBody == if editor.value.kind.RangeEdit? then DimmerBody(xml, PyAt(config, el).tag, editValue) else xml
    {
      var config := configRoot.value;
      var el := rows[item].el;
      var newVal := editValue;
      var edited := SetText(config, el, Some(newVal));
      SetTextKeepsShape(config, el, Some(newVal), target.el);
      xmlBody := CleanXml(tostring(PyAt(edited, target.el)));
      if editor.value.kind.RangeEdit? {
        var tag := PyAt(edited, el).tag;
        xmlBody := DimmerBody(xmlBody, tag, newVal);
      }
    }
  }

  /**
   * Writing the old text back after a write of `v`: the document is the one
   * before the write and the rows stay consistent with it.
   */
  lemma RestoreRow(rows: seq<Row>, edited: PyElement, caps: Option<PyElement>, item: nat,
                   config: PyElement, v: Option<string>, oldVal: Option<string>)
    requires item < |rows| && PyValidPath(config, rows[item].el) && oldVal == PyAt(config, rows[item].el).text
    requires edited == SetText(config, rows[item].el, v) && RowsOk(rows, edited, caps)
    ensures SetText(edited, rows[item].el, oldVal) == config
    ensures RowsOk(rows[item := rows[item].(shown := Shown(oldVal))], config, caps)
  {
    SetTextRestores(config, rows[item].el, v);
    RowsOkAfterWrite(rows, edited, caps, item, rows[item].el, oldVal, Shown(oldVal));
  }
}

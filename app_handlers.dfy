/**
 * The state of the web front end's `App` component and its event handlers:
 * loading the configuration, selecting a node, editing its value, the
 * Loxone command and the PUT to the camera.
 *
 * The configuration document is held in `doc`; a node reaches its element
 * through its position (`HikNode.raw`), so writing `rawElement.textContent`
 * is an update of `doc` at that position. The network answers, the user's
 * confirmation and the XML serialiser are parameters.
 */
module AppState {
  import opened Wrappers
  import opened Strings
  import opened Scan
  import opened Dom
  import opened Types
  import opened XmlUtils
  import opened App

  /** What `fetch` of the PUT gave: a response with a status, or a thrown network error. */
  datatype PutOutcome = Response(status: int) | NetworkFailure
  {
    /** `res.ok`. */
    predicate Ok() {
      Response? && 200 <= status <= 299
    }
  }

  class Explorer {
    var ip: string
    var user: string
    var pass: string
    /** The configuration document the nodes' elements belong to. */
    var doc: Element
    var nodes: seq<HikNode>
    /** The selected node, by its position in the tree. */
    var selected: Option<Path>
    var editValue: string
    var loxoneConfig: Option<LoxoneConfig>

    /**
     * At most one root; a loaded tree has the document's shape and unique
     * ids, and every node carries the path `buildTree` gives the root; a
     * selection is a node of the tree, with its element in the document.
     */
    predicate Valid()
      reads this
    {
      |nodes| <= 1 &&
      (nodes == [] ==> selected.None?) &&
      (|nodes| == 1 ==>
        Shaped(nodes[0], doc, []) && IdsDistinct(nodes[0]) && PathsAre(nodes[0], BASE_PATH + "/" + nodes[0].tag) &&
        (selected.Some? ==> ValidNodePath(nodes[0], selected.value) && ValidPath(doc, selected.value)))
    }

    /**
     * The editor offers its buttons only for a node without children, so
     * the handlers run with a leaf selected.
     */
    predicate SelectionIsLeaf()
      reads this
      requires Valid()
    {
      selected.Some? ==> NodeAt(nodes[0], selected.value).children == []
    }

    constructor ()
      ensures Valid()
      ensures ip == "192.168.10.150" && user == "admin" && pass == ""
      ensures nodes == [] && selected.None? && editValue == "" && loxoneConfig.None?
    {
      ip := "192.168.10.150";
      user := "admin";
      pass := "";
      doc := Element(None, "", [], "", []);
      nodes := [];
      selected := None;
      editValue := "";
      loxoneConfig := None;
    }

    /** The connection inputs of the header bar. */
    method SetConnection(newIp: string, newUser: string, newPass: string)
      requires Valid()
      modifies this
      ensures Valid()
      ensures ip == newIp && user == newUser && pass == newPass
      ensures doc == old(doc) && nodes == old(nodes) && selected == old(selected)
      ensures editValue == old(editValue) && loxoneConfig == old(loxoneConfig)
    {
      ip, user, pass := newIp, newUser, newPass;
    }

    /**
     * `loadData`: the selection is dropped; a configuration that arrived
     * and parsed (`fetched`) becomes the document and the tree, built with
     * the capability document when that one arrived too; on any failure
     * the old tree stays. Returns the URL the configuration is read from.
     */
    method LoadData(prod: bool, fetched: Option<Element>, capsDoc: Option<Element>) returns (url: string)
      requires Valid()
      modifies this
      ensures Valid() && selected.None?
      ensures url == GetSafeUrl(prod, ip, BASE_PATH)
      ensures fetched.Some? ==> doc == fetched.value && nodes == BuildTree(fetched.value, capsDoc)
      ensures fetched.None? ==> doc == old(doc) && nodes == old(nodes)
      ensures ip == old(ip) && user == old(user) && pass == old(pass)
      ensures editValue == old(editValue) && loxoneConfig == old(loxoneConfig)
    {
      url := GetSafeUrl(prod, ip, BASE_PATH);
      if fetched.Some? {
        BuildTreeFits(fetched.value, capsDoc);
        assert BuildTree(fetched.value, capsDoc)[0].tag == fetched.value.localName;
        ShowTree(fetched.value, BuildTree(fetched.value, capsDoc));
      } else {
        selected := None;
      }
    }

    /** A freshly built tree replaces the old one, with nothing selected. */
    method ShowTree(newDoc: Element, tree: seq<HikNode>)
      requires |tree| == 1 && Shaped(tree[0], newDoc, []) && IdsDistinct(tree[0])
      requires PathsAre(tree[0], BASE_PATH + "/" + tree[0].tag)
      modifies this
      ensures Valid() && selected.None? && doc == newDoc && nodes == tree
      ensures ip == old(ip) && user == old(user) && pass == old(pass)
      ensures editValue == old(editValue) && loxoneConfig == old(loxoneConfig)
    {
      doc, nodes, selected := newDoc, tree, None;
    }

    /** `handleNodeSelect`: the node becomes the selection and its text the value being edited. */
    method Select(p: Path)
      requires Valid() && |nodes| == 1 && ValidNodePath(nodes[0], p)
      modifies this
      ensures Valid()
      ensures selected == Some(p) && editValue == NodeAt(nodes[0], p).text
      ensures doc == old(doc) && nodes == old(nodes) && loxoneConfig == old(loxoneConfig)
      ensures ip == old(ip) && user == old(user) && pass == old(pass)
    {
      ShapedRawIsPosition(nodes[0], doc, p);
      selected := Some(p);
      editValue := NodeAt(nodes[0], p).text;
    }

    /** The editor's text field, slider or option list. */
    method Edit(v: string)
      requires Valid()
      modifies this
      ensures Valid() && editValue == v
      ensures doc == old(doc) && nodes == old(nodes) && selected == old(selected)
      ensures loxoneConfig == old(loxoneConfig)
      ensures ip == old(ip) && user == old(user) && pass == old(pass)
    {
      editValue := v;
    }

    /** The Loxone dialog's close button: the stored command is dropped. */
    method CloseLoxone()
      requires Valid()
      modifies this
      ensures Valid() && loxoneConfig.None?
      ensures doc == old(doc) && nodes == old(nodes) && selected == old(selected) && editValue == old(editValue)
      ensures ip == old(ip) && user == old(user) && pass == old(pass)
    {
      loxoneConfig := None;
    }

    /**
     * `handleShowLoxone`: for a selected node other than the root, the
     * edited value is written into the node's element just long enough to
     * serialise the module, and the old text is written back; the document
     * ends as it was and the command is stored. Without a selection, or
     * with the root selected, nothing changes.
     */
    method HandleShowLoxone(serialize: Element -> string)
      requires Valid() && SelectionIsLeaf()
      modifies this
      ensures Valid()
      ensures doc == old(doc) && nodes == old(nodes) && selected == old(selected) && editValue == old(editValue)
      ensures ip == old(ip) && user == old(user) && pass == old(pass)
      ensures (selected.None? || selected.value == []) ==> loxoneConfig == old(loxoneConfig)
      ensures selected.Some? && selected.value != [] ==>
        loxoneConfig == Some(LoxoneCommand(doc, nodes[0], selected.value, editValue, serialize, user, pass, ip))
      ensures selected.Some? && selected.value != [] && PlainName(nodes[0].tag) ==>
        loxoneConfig.Some? && loxoneConfig.value.instruction == BASE_PATH
    {
      if selected.None? {
        return;
      }
      var p := selected.value;
      var root := nodes[0];
      var node := NodeAt(root, p);
      RootCheckIsPosition(root, p);
      if node.id == root.id {
        return;
      }
      var config := LoxoneRequest(serialize, p);
      WriteThenRestore(p);
      loxoneConfig := Some(config);
    }

    /** The configuration `handleShowLoxone` stores for the selected node `p`: its module's request. */
    method LoxoneRequest(serialize: Element -> string, p: Path) returns (config: LoxoneConfig)
      requires Valid() && selected == Some(p) && p != []
      ensures config == LoxoneCommand(doc, nodes[0], p, editValue, serialize, user, pass, ip)
      ensures PlainName(nodes[0].tag) ==> config.instruction == BASE_PATH
    {
      var root := nodes[0];
      if PlainName(root.tag) {
        CommandsUseBasePath(doc, root, p, editValue, serialize, false, user, pass, ip);
      }
      var m := FindModuleElement(root, NodeAt(root, p));
      var xmlBody, isDimmer := LoxoneBody(serialize, p, m.raw);
      LoxoneCommandFrom(doc, root, p, editValue, serialize, user, pass, ip, xmlBody, isDimmer);
      config := LoxoneConfig("http://" + user + ":" + pass + "@" + ip, RequestPath(m.name, root.tag), xmlBody, isDimmer);
    }

    /**
     * `handlePut`: for a selected node other than the root and a confirmed
     * prompt, the edited value is written into the node's element and the
     * module is sent. A successful response keeps the new value and gives
     * the node the new text; a failed response or a network error writes the
     * old text back, which leaves the document as it was. Returns the request
     * sent, if any.
     */
    method HandlePut(serialize: Element -> string, prod: bool, confirmed: bool, outcome: PutOutcome)
      returns (request: Option<PutRequest>)
      requires Valid() && SelectionIsLeaf()
      modifies this
      ensures Valid() && SelectionIsLeaf()
      ensures selected == old(selected) && editValue == old(editValue) && loxoneConfig == old(loxoneConfig)
      ensures ip == old(ip) && user == old(user) && pass == old(pass)
      ensures request.Some? <==> selected.Some? && selected.value != [] && confirmed
      ensures request.Some? ==>
        request.value == PutCommand(old(doc), old(nodes)[0], selected.value, editValue, serialize, prod, ip)
      ensures request.Some? && PlainName(old(nodes)[0].tag) ==> request.value.url == GetSafeUrl(prod, ip, BASE_PATH)
      ensures request.Some? && outcome.Ok() ==>
        doc == EditedDocument(old(doc), selected.value, editValue) &&
        nodes == [SetNodeText(old(nodes)[0], selected.value, editValue)]
      ensures !(request.Some? && outcome.Ok()) ==> doc == old(doc) && nodes == old(nodes)
    {
      request := None;
      if selected.None? {
        return;
      }
      var p := selected.value;
      var root := nodes[0];
      var node := NodeAt(root, p);
      var m := FindModuleElement(root, node);
      RootCheckIsPosition(root, p);
      if node.id == root.id {
        return;
      }
      if PlainName(root.tag) {
        CommandsUseBasePath(doc, root, p, editValue, serialize, prod, user, pass, ip);
      }
      var targetUrl := GetSafeUrl(prod, ip, RequestPath(m.name, root.tag));
      if !confirmed {
        return;
      }
      var payload := WriteAndSend(serialize, p, m.raw, outcome);
      request := Some(PutRequest(targetUrl, payload));
    }

    /**
     * The part of `handlePut` after the confirmation: the node's element
     * takes the edited value, the module at `moduleRaw` is serialised for the
     * request, and the response decides whether the value stays or the old
     * text is written back.
     */
    method WriteAndSend(serialize: Element -> string, p: Path, moduleRaw: Path, outcome: PutOutcome)
      returns (payload: string)
      requires Valid() && SelectionIsLeaf() && selected == Some(p) && p != []
      requires moduleRaw == FindModuleElement(nodes[0], NodeAt(nodes[0], p)).raw
      modifies this
      ensures Valid() && SelectionIsLeaf()
      ensures selected == old(selected) && editValue == old(editValue) && loxoneConfig == old(loxoneConfig)
      ensures ip == old(ip) && user == old(user) && pass == old(pass)
      ensures payload == ModulePayload(old(doc), old(nodes)[0], p, editValue, serialize)
      ensures outcome.Ok() ==>
        doc == EditedDocument(old(doc), p, editValue) && nodes == [SetNodeText(old(nodes)[0], p, editValue)]
      ensures !outcome.Ok() ==> doc == old(doc) && nodes == old(nodes)
    {
      payload := EditedPayload(serialize, p, moduleRaw);
      if outcome.Ok() {
        KeepEdit(p);
      } else {
        WriteThenRestore(p);
      }
    }

    /** The module at `moduleRaw`, cleaned and serialised with the edited value in the node's element. */
    method EditedPayload(serialize: Element -> string, p: Path, moduleRaw: Path) returns (payload: string)
      requires Valid() && selected == Some(p) && p != []
      requires moduleRaw == FindModuleElement(nodes[0], NodeAt(nodes[0], p)).raw
      ensures payload == ModulePayload(doc, nodes[0], p, editValue, serialize)
    {
      ModuleInDocument(doc, nodes[0], p, editValue);
      var raw := NodeAt(nodes[0], p).raw;
      payload := CleanXmlElement(At(EditedDocument(doc, raw, editValue), moduleRaw), serialize);
    }

    /**
     * The Loxone body: the edited module's XML, with the first
     * `<tag>value</tag>` turned into the dimmer placeholder when the node has
     * a range and the XML holds it.
     */
    method LoxoneBody(serialize: Element -> string, p: Path, moduleRaw: Path) returns (xmlBody: string, isDimmer: bool)
      requires Valid() && selected == Some(p) && p != []
      requires moduleRaw == FindModuleElement(nodes[0], NodeAt(nodes[0], p)).raw
      ensures (xmlBody, isDimmer) ==
        SubstitutePlaceholder(ModulePayload(doc, nodes[0], p, editValue, serialize),
                              NodeAt(nodes[0], p).tag, editValue, HasRange(NodeAt(nodes[0], p)))
    {
      var node := NodeAt(nodes[0], p);
      xmlBody := EditedPayload(serialize, p, moduleRaw);
      isDimmer := false;
      if HasRange(node) {
        var pattern := ValueTag(node.tag, editValue);
        if Contains(xmlBody, pattern) {
          xmlBody := ReplaceFirst(Literal(pattern, ValueTag(node.tag, PLACEHOLDER)), xmlBody);
          isDimmer := true;
        }
      }
    }

    /** A successful response: the edited value stays in the element and becomes the node's text. */
    method KeepEdit(p: Path)
      requires Valid() && SelectionIsLeaf() && selected == Some(p)
      modifies this
      ensures Valid() && SelectionIsLeaf()
      ensures doc == EditedDocument(old(doc), p, editValue) && nodes == [SetNodeText(old(nodes)[0], p, editValue)]
      ensures selected == old(selected) && editValue == old(editValue) && loxoneConfig == old(loxoneConfig)
      ensures ip == old(ip) && user == old(user) && pass == old(pass)
    {
      var root := nodes[0];
      PutKeepsTree(root, doc, p, editValue);
      SetNodeTextKeepsPaths(root, BASE_PATH + "/" + root.tag, p, editValue);
      ShapedRawIsPosition(root, doc, p);
      doc, nodes := EditedDocument(doc, NodeAt(root, p).raw, editValue), [SetNodeText(root, p, editValue)];
    }

    /**
     * The edited value written into the node's element and the old text
     * written back: the document ends as it was.
     */
    method WriteThenRestore(p: Path)
      requires Valid() && SelectionIsLeaf() && selected == Some(p)
      modifies this
      ensures doc == old(doc) && nodes == old(nodes) && selected == old(selected) && editValue == old(editValue)
      ensures loxoneConfig == old(loxoneConfig) && ip == old(ip) && user == old(user) && pass == old(pass)
    {
      var root := nodes[0];
      PutKeepsTree(root, doc, p, editValue);
      ShapedRawIsPosition(root, doc, p);
      var raw := NodeAt(root, p).raw;
      var original := TextContent(At(doc, raw));
      var edited := EditedDocument(doc, raw, editValue);
      EditThenRestore(doc, raw, editValue);
      doc := EditedDocument(edited, raw, original);
    }
  }
}

# HIKSwitcher in Dafny

HIKSwitcher edits the image settings of a Hikvision camera through its ISAPI
interface (`/ISAPI/Image/channels/1`) and helps wire a setting into a Loxone
"virtual output" command. It comes in two forms, and both are modelled here:

- a web front end (`frontend/src/App.tsx` with `frontend/src/utils/xmlUtils.ts`);
- a Tk desktop tool (`Loxone_ISAPI.py`).

Both forms do the same things:

1. They read the channel's configuration document and, when available, its
   capability document.
2. They show the configuration as a tree of parameters whose leaves carry
   values.
3. They pick an editor for a leaf from its capability element: a text field,
   a slider (`min`/`max`) or a list of options (`opt`/`options`).
4. They write an edited value into the element, serialise the enclosing
   module, strip XML namespaces from it, and either PUT it to the camera or
   show it as a Loxone command. For a slider, the value becomes the Loxone
   placeholder `\v`.

The model has these modules:

| file | module | models |
|---|---|---|
| `wrappers.dfy` | `Wrappers` | the `Option` type |
| `strings.dfy` | `Strings` | ASCII whitespace and `trim`/`strip`, splitting on a set of separators, JavaScript `parseInt` and Python `int` on decimal text |
| `scan.dfy` | `Scan` | regular-expression replacement as a left-to-right scan with a matcher: replace-all (`/g`, `re.sub`) and replace-first (`count=1`, `String.replace` with a string) |
| `dom.dfy` | `Dom` | the browser DOM elements the front end uses, as values, with positions (child-index paths) |
| `types.dfy` | `Types` | `HikNode`, `HikCapabilities`, `LoxoneConfig` |
| `xml_utils.dfy` | `XmlUtils` | `cleanXmlElement` and `parseCapabilities` |
| `app.dfy` | `App` | the pure logic of the `App` component: `getSafeUrl`, `buildTree`, `findModuleElement`, the request paths, the dimmer placeholder, the PUT and the Loxone commands |
| `app_handlers.dfy` | `AppState` | the component's state and event handlers, as a class |
| `loxone_isapi.dfy` | `LoxoneIsapi` | the desktop tool's pure helpers: `safe_url`, `clean_xml_string`, the `{uri}` tag stripping, capability matching, editor choice, the dimmer placeholder |
| `loxone_explorer.dfy` | `LoxoneExplorer` | the `HikSmartExplorer` window as a class: the tree rows with their `tree_map` entries, `load_data`, `rebuild_tree`, `_add_nodes_recursive`, `get_context_module`, `on_tree_select`, `do_put`, `show_loxone` |

Both programs hold a reference to an element and assign its text in place.
The model keeps the document as a value and names an element by its position
in it, so that assignment becomes an update of the document at that position.

The following are parameters of the model:

- the network's answers;
- the user's confirmation;
- the XML serialisers (`XMLSerializer`, `ET.tostring`);
- the production flag of the build.

The two implementations differ in a few places. The model states each
difference as a lemma:

- **The `http` test.** `safe_url` tests only for the four letters `http`.
  `getSafeUrl` tests for a real `http://` or `https://` scheme. For an
  address such as `httpcam` they build different URLs
  (`LoxoneIsapi.SafeUrlPrefixTest`). Where the two tests agree, so do the
  URLs (`LoxoneIsapi.SafeUrlAgreesWithScript`).
- **The dimmer placeholder.** The desktop tool replaces every occurrence of
  `<tag>value</tag>`. The front end replaces only the first. The results are
  the same when the pattern occurs once
  (`LoxoneIsapi.DimmerBodyAgreesWithScript`).
- **Options and bounds.** Both read the same option lists
  (`Strings.PythonAndScriptOptionsAgree`). Both read the same integer bounds
  whenever Python's `int` accepts them (`Strings.PyIntAgreesWithJsParseInt`).
  Both statements hold for text without the control characters U+001C to
  U+001F: Python's `strip`, `int` and `\s` count those as whitespace, and
  JavaScript's `trim` does not. The model has one whitespace class, without
  them.
- **Module resolution.** The front end resolves a node's module from
  `fullPath`. `createNode` extends the path only below `BASE_PATH` itself, so
  every node's `fullPath` is `BASE_PATH/<root tag>`. The module is therefore
  the root, or a child of the root that carries the root's own tag
  (`App.ModuleIsRootUnlessSelfNamedChild`). The desktop tool walks up to the
  top-level element instead (`LoxoneExplorer.ModuleIsTopLevelAncestor`).
- **Error handling.** After a failed PUT, the front end writes the old text
  back. The desktop tool writes it back after a status other than 200 or
  201, but keeps the new value when `requests.put` raises.

## Model

| member | source | states |
|---|---|---|
| Dom.TagName | frontend/src/App.tsx:63 | the qualified name `getElementsByTagName` matches: the local name alone, or exactly the prefix, a colon and the local name |
| Dom.GetAttribute | frontend/src/utils/xmlUtils.ts:46-47 | `null` exactly when no attribute has the name; otherwise a value the element really carries under that name |
| Dom.SetTextContent | frontend/src/App.tsx:168 | after `textContent = v` the element's text content is `v`, it has no child elements, and its name and attributes are unchanged |
| Dom.RestoreLeaf | frontend/src/App.tsx:167-168 | for a leaf, writing back the old `textContent` gives back the element it was |
| Dom.Replace | frontend/src/App.tsx:168 | after an in-place change at a position, that position holds the new element; every position beside it is unchanged and every ancestor keeps its name, attributes, text and child count |
| Dom.ReplaceAtSelf | frontend/src/App.tsx:191 | writing back what is at a position changes nothing |
| Dom.ReplaceTwice | frontend/src/App.tsx:191 | a second write at the same position undoes the first |
| Dom.ReplaceLeafKeepsShape | frontend/src/App.tsx:168 | replacing a leaf by a leaf of the same name keeps every name and child count of the document |
| Dom.FirstByTag | frontend/src/App.tsx:63 | `getElementsByTagName(tag)[0]` is an element of the document with that name, and no element before it in document order has the name; it is missing exactly when no element has the name |
| Dom.OnlyBelowStep | frontend/src/App.tsx:168 | one level of an in-place change keeps the siblings and the parent's head |
| Strings.Trim | frontend/src/App.tsx:70 | `trim()`/`strip()` returns the text between the leading and trailing whitespace, with no whitespace at either end |
| Strings.TrimIdempotent | Loxone_ISAPI.py:302 | trimming twice is trimming once |
| Strings.TrimEmptyIffBlank | frontend/src/utils/xmlUtils.ts:55 | a part is dropped by `filter(Boolean)` / `if x.strip()` exactly when it is all whitespace |
| Strings.SplitAny | frontend/src/utils/xmlUtils.ts:55 | `split(/[;,]/)` gives at least one part and no part contains a separator |
| Strings.SplitAnyCount | frontend/src/utils/xmlUtils.ts:55 | there is one part more than there are separators |
| Strings.SplitJoin | frontend/src/utils/xmlUtils.ts:55 | joining the parts with the separator gives back the text |
| Strings.ReplaceChar | Loxone_ISAPI.py:302 | `replace(';', ',')` changes exactly the `;` characters, and nothing else |
| Strings.SplitAfterReplace | Loxone_ISAPI.py:302 | splitting on `,` after the replacement is splitting on both `;` and `,` |
| Strings.TrimmedNonEmpty | frontend/src/utils/xmlUtils.ts:55 | the kept options are the trimmed parts that are not empty, in order: every such part is kept, and every kept option is the trim of some part |
| Strings.TrimmedNonEmptyAppend | frontend/src/utils/xmlUtils.ts:55 | the options kept from two runs of parts are those of the first run followed by those of the second |
| Strings.SplitOptionsWellFormed | frontend/src/utils/xmlUtils.ts:55 | every option is non-empty, trimmed and free of separators |
| Strings.PythonAndScriptOptionsAgree | Loxone_ISAPI.py:300-302 | the desktop tool and the front end read the same option list from the same attribute |
| Strings.ShowNatValue | frontend/src/utils/xmlUtils.ts:49-50 | the decimal digits of a number read back as that number |
| Strings.JsParseIntShowInt | frontend/src/utils/xmlUtils.ts:49-50 | `parseInt(s, 10)` reads a decimal integer, signed or not, followed by any non-digit text |
| Strings.PyIntShowInt | Loxone_ISAPI.py:296 | Python's `int` reads a decimal integer back |
| Strings.NumeralShowInt | Loxone_ISAPI.py:296 | the decimal spelling of an integer is a numeral of that value with no surrounding whitespace |
| Strings.PyIntAgreesWithJsParseInt | Loxone_ISAPI.py:296 | whenever `int` accepts a bound, `parseInt` reads the same number |
| Scan.FirstHit | frontend/src/App.tsx:233 | the first position where the pattern matches, with no match before it; none exactly when the pattern matches nowhere |
| Scan.ReplaceAllNoHit | Loxone_ISAPI.py:393 | a global replacement changes nothing when the pattern matches nowhere |
| Scan.ReplaceAllShrinks | Loxone_ISAPI.py:23-26 | deleting matches never lengthens the text, and shortens it when there is a match |
| Scan.ReplaceAllUnchangedIff | Loxone_ISAPI.py:23-26 | a deleting global replacement leaves the text as it was exactly when nothing matches |
| Scan.ReplaceFirstSplice | frontend/src/App.tsx:233 | replace-first splices the replacement in at the first match and keeps the rest |
| Scan.ReplaceFirstAt | frontend/src/App.tsx:233 | with the leftmost match at a given position, replace-first splices it out and copies the rest |
| Scan.ReplaceFirstNoHit | frontend/src/App.tsx:233 | with no match anywhere, replace-first copies the text |
| Scan.ReplaceFirstShrinks | Loxone_ISAPI.py:25 | `count=1` deletion never lengthens the text, and changes it exactly when there is a match |
| Scan.ReplaceFirstIsReplaceAllWhenSingle | frontend/src/App.tsx:233 | replace-first and replace-all agree when nothing matches after the first match |
| Scan.LiteralOnceReplaceFirstIsAll | Loxone_ISAPI.py:393 | for a search string that occurs at one position only, replacing the first occurrence is replacing every occurrence |
| Scan.LiteralHitIffContains | frontend/src/App.tsx:232 | the literal pattern matches somewhere exactly when `includes` holds |
| XmlUtils.WithoutXmlns | frontend/src/utils/xmlUtils.ts:14-19 | exactly the attributes whose name does not start with `xmlns` remain |
| XmlUtils.NsStripped | frontend/src/utils/xmlUtils.ts:12-24 | the clone keeps its name, text and children count, and its attributes lose the `xmlns` ones |
| XmlUtils.NsStrippedAll | frontend/src/utils/xmlUtils.ts:22-23 | every child is cleaned the same way |
| XmlUtils.RemoveNamespaces | frontend/src/utils/xmlUtils.ts:12-24 | the loop over attributes and the recursion over children compute the cleaned clone |
| XmlUtils.KeepNonXmlns | frontend/src/utils/xmlUtils.ts:14-19 | the attribute loop removes exactly the `xmlns*` attributes and keeps the others in order |
| XmlUtils.RemoveNamespacesAll | frontend/src/utils/xmlUtils.ts:22-23 | the child loop cleans every child in turn |
| XmlUtils.NsStrippedHasNoXmlns | frontend/src/utils/xmlUtils.ts:12-26 | no `xmlns` attribute remains anywhere in the clone |
| XmlUtils.WithoutXmlnsOfClean | frontend/src/utils/xmlUtils.ts:14-19 | attributes without `xmlns` names are kept as they are |
| XmlUtils.NsStrippedUnchangedIff | frontend/src/utils/xmlUtils.ts:12-26 | the cleaning changes the element exactly when some element below carries an `xmlns` attribute |
| XmlUtils.NsStrippedIdempotent | frontend/src/utils/xmlUtils.ts:12-26 | cleaning twice is cleaning once |
| XmlUtils.NsStrippedKeepsTree | frontend/src/utils/xmlUtils.ts:9-10 | the clone has the original's names, shape and text content |
| XmlUtils.PrefixedTagShrinks | frontend/src/utils/xmlUtils.ts:30-32 | each prefix rewrite is shorter than what it replaces |
| XmlUtils.QualifiedNameAtRule | frontend/src/utils/xmlUtils.ts:30 | `\w+:(\w+)` after the bracket matches a whole prefix and name and keeps the name |
| XmlUtils.PrefixedTagAtRule | frontend/src/utils/xmlUtils.ts:30-32 | `<p:n` becomes `<n` and `</p:n` becomes `</n` |
| XmlUtils.StripPrefixesRule | frontend/src/utils/xmlUtils.ts:30-32 | the rewrite of a prefixed opening or closing tag, followed by the rewrite of the rest |
| XmlUtils.StripPrefixesCopies | frontend/src/utils/xmlUtils.ts:30-32 | text without `<` passes through unchanged |
| XmlUtils.StripPrefixesUnchangedIff | frontend/src/utils/xmlUtils.ts:30-32 | the prefix rewrite changes the text exactly when a prefixed tag occurs |
| XmlUtils.StripDeclarationsShrinks | frontend/src/utils/xmlUtils.ts:35 | removing declarations never lengthens the text, and changes it exactly when one occurs |
| XmlUtils.StripDeclarationsRule | frontend/src/utils/xmlUtils.ts:35 | a whitespace-led `xmlns` or `xmlns:p` declaration is removed |
| XmlUtils.StripDeclarationsCopies | frontend/src/utils/xmlUtils.ts:35 | text without whitespace passes through unchanged |
| XmlUtils.CleanXmlElement | frontend/src/utils/xmlUtils.ts:6-38 | the result is the serialised clean clone with tag prefixes and leftover declarations removed |
| XmlUtils.StripPrefixesOfModule | frontend/src/utils/xmlUtils.ts:28-32 | a prefixed module with one prefixed leaf loses every prefix |
| XmlUtils.StripDeclarationsOfModule | frontend/src/utils/xmlUtils.ts:34-35 | the leftover `xmlns:p` declaration of such a module is removed |
| XmlUtils.CleanPrefixedModule | frontend/src/utils/xmlUtils.ts:28-37 | a prefixed module with its namespace declaration becomes plain `<m><l>v</l></m>` |
| XmlUtils.OptionText | frontend/src/utils/xmlUtils.ts:53 | a non-empty option text comes from a non-empty `opt`, or else from a non-empty `options` |
| XmlUtils.ParseCapabilities | frontend/src/utils/xmlUtils.ts:43-59 | bounds appear together, exactly when both `min` and `max` exist, read with `parseInt`; options appear exactly when the option text is non-empty, split on `;`/`,`, trimmed and non-empty |
| XmlUtils.CapabilitiesIndependent | frontend/src/utils/xmlUtils.ts:46-56 | the bounds depend only on `min`/`max`, the options only on `opt`/`options` |
| XmlUtils.CapabilitiesEmpty | frontend/src/utils/xmlUtils.ts:43-59 | an element with none of the four attributes gives no capabilities |
| XmlUtils.CapabilityOptionsWellFormed | frontend/src/utils/xmlUtils.ts:53-56 | every option offered is non-empty, trimmed and free of separators |
| XmlUtils.CapabilitiesReadDecimalBounds | frontend/src/utils/xmlUtils.ts:46-51 | decimal `min`/`max` attributes become exactly those numbers |
| App.CleanPath | frontend/src/App.tsx:37 | the path gets a leading `/` when it lacks one, and is otherwise kept |
| App.GetSafeUrl | frontend/src/App.tsx:36-53 | the proxy route in production; otherwise the trimmed address, with `http://` added unless it names a scheme; then the path |
| App.SafeUrlShape | frontend/src/App.tsx:46-51 | outside production every URL names a scheme and ends with the slash-led path |
| App.CapabilitiesFor | frontend/src/App.tsx:61-65 | no capabilities without a capability document; with one, none exactly when no element has the tag; otherwise the capabilities parsed from the first element in document order with the tag |
| App.CreateNode | frontend/src/App.tsx:56-80 | the node mirrors its element: tag, trimmed leaf text, capabilities, children in order, parent tag, and fresh ids |
| App.CreateChildren | frontend/src/App.tsx:78 | one node per child element, in order, with consecutive fresh ids |
| App.BuildTree | frontend/src/App.tsx:55-83 | one root node mirroring the document, whose path is `BASE_PATH/<root tag>` |
| App.BuildTreeIdsDistinct | frontend/src/App.tsx:68 | every node of the tree has its own id |
| App.BuildTreeFits | frontend/src/App.tsx:82 | the tree has one root, matches the document's shape and has distinct ids |
| App.ShapedAt | frontend/src/App.tsx:75 | a node's `rawElement` is the element at the node's position in the document |
| App.PathsAreAt | frontend/src/App.tsx:58 | every node's `fullPath` is the root's |
| App.SetNodeText | frontend/src/App.tsx:184 | `selectedNode.text = editValue` changes that node's text; every node beside it is unchanged, and every ancestor keeps its id, tag, element, text and child count |
| App.SetNodeTextKeeps | frontend/src/App.tsx:184-185 | the tree still matches the document and keeps its ids |
| App.SetNodeTextKeepsPaths | frontend/src/App.tsx:184 | writing a node's text keeps every node's `fullPath` |
| App.FindChild | frontend/src/App.tsx:146 | `find` returns the first child with the tag, or nothing when none has it |
| App.FindModuleElement | frontend/src/App.tsx:138-148 | the root for the root node; otherwise the root or one of its children |
| App.BasePathJoined | frontend/src/App.tsx:9 | `BASE_PATH` is the four segments joined by `/` |
| App.BasePathSegments | frontend/src/App.tsx:143-144 | `split('/')` of `BASE_PATH/<tag>` has six parts and part 5 is the tag |
| App.ModuleIsRootUnlessSelfNamedChild | frontend/src/App.tsx:138-147 | the module is the root, unless a child of the root carries the root's tag, in which case it is that child |
| App.RequestPath | frontend/src/App.tsx:158 | `BASE_PATH` for the root's name, `BASE_PATH/<name>` otherwise |
| App.SubstitutePlaceholder | frontend/src/App.tsx:226-236 | the dimmer flag is set exactly for a slider whose body contains `<tag>value</tag>`; otherwise the body is unchanged |
| App.DimmerBodySplice | frontend/src/App.tsx:230-235 | the first `<tag>value</tag>` is replaced by `<tag>\v</tag>` and the rest is kept |
| App.RootCheckIsPosition | frontend/src/App.tsx:154 | the root-id check holds exactly for the root's position |
| App.ShapedRawIsPosition | frontend/src/App.tsx:167 | the selected node's element is the element at its position, with as many children |
| App.EditedDocument | frontend/src/App.tsx:168 | after the write, the element has the edited text content and no child elements, keeps its name and attributes, and the rest of the document is unchanged outside the element's position |
| App.EditThenRestore | frontend/src/App.tsx:167-168 | writing the old `textContent` back to a leaf gives back the document |
| App.EditKeepsShape | frontend/src/App.tsx:168 | writing a leaf's text keeps the document's shape |
| App.ModuleInDocument | frontend/src/App.tsx:152-169 | the module element is still in the document after the write |
| App.LoxoneCommand | frontend/src/App.tsx:203-252 | the address is `http://user:pass@ip`; the instruction is the request path of the node's module; the dimmer flag is set exactly when the slider's pattern is in the payload; the body is the payload, with the placeholder substituted for a dimmer |
| App.PutCommand | frontend/src/App.tsx:150-179 | the URL is `getSafeUrl(ip, path)` for the request path of the node's module, and names a scheme outside production; the body is the module payload with the edit |
| App.CommandsUseBasePath | frontend/src/App.tsx:138-159 | for a tree built by `buildTree` whose root tag has no `/`, the module name is the root's tag, so the PUT goes to `getSafeUrl(ip, BASE_PATH)` and the Loxone instruction is `BASE_PATH` |
| App.PutAndLoxoneAgree | frontend/src/App.tsx:150-252 | the PUT goes to the Loxone instruction's URL, and the Loxone body is the PUT body with the placeholder substituted |
| App.PutKeepsTree | frontend/src/App.tsx:181-185 | after a successful PUT the tree still matches the edited document, keeps distinct ids, and the node is still a leaf |
| AppState.Explorer.constructor | frontend/src/App.tsx:13-24 | the initial address, user and empty password; no tree, no selection and no Loxone command |
| AppState.Explorer.SetConnection | frontend/src/App.tsx:352-370 | the header inputs set the address, user and password, and nothing else |
| AppState.Explorer.LoadData | frontend/src/App.tsx:85-136 | the selection is cleared; a configuration that arrived becomes the document and the tree; otherwise the old tree stays; the URL is `getSafeUrl(ip, BASE_PATH)` |
| AppState.Explorer.ShowTree | frontend/src/App.tsx:89-122 | the new document and its tree replace the old ones, nothing is selected, and the tree fits the document |
| AppState.Explorer.Select | frontend/src/App.tsx:254-257 | the node becomes the selection and its text the edited value |
| AppState.Explorer.Edit | frontend/src/App.tsx:288 | the editor sets the edited value and nothing else |
| AppState.Explorer.CloseLoxone | frontend/src/App.tsx:444 | closing the dialog drops the Loxone command |
| AppState.Explorer.HandleShowLoxone | frontend/src/App.tsx:203-252 | for a non-root selection the command is stored, and the document ends as it was; otherwise nothing changes; the instruction is `BASE_PATH` whenever the root tag has no `/` |
| AppState.Explorer.LoxoneRequest | frontend/src/App.tsx:203-249 | the configuration built for the selected node is exactly `LoxoneCommand` on the current document, and its instruction is `BASE_PATH` when the root tag has no `/`; nothing changes |
| AppState.Explorer.HandlePut | frontend/src/App.tsx:150-201 | a request is sent exactly for a confirmed non-root selection, and, when the root tag has no `/`, to `getSafeUrl(ip, BASE_PATH)`; an OK answer keeps the new text in the document and the node; anything else leaves both as they were |
| AppState.Explorer.WriteAndSend | frontend/src/App.tsx:164-200 | the payload is the module with the edit written in; the answer decides whether the edit stays |
| AppState.Explorer.EditedPayload | frontend/src/App.tsx:167-169 | the payload is the module, cleaned and serialised with the edited value in the node's element |
| AppState.Explorer.LoxoneBody | frontend/src/App.tsx:218-236 | the body is the edited module's XML, with the first `<tag>value</tag>` turned into the placeholder exactly for a node with a range whose XML holds it |
| AppState.Explorer.KeepEdit | frontend/src/App.tsx:181-185 | on `res.ok` the edited value stays in the document and becomes the node's text, and the tree still fits the document |
| AppState.Explorer.WriteThenRestore | frontend/src/App.tsx:218-239 | the edited value is written into the element and the old text written back: the document ends as it was |
| LoxoneIsapi.SetText | Loxone_ISAPI.py:345 | `el.text = v` changes that element's text; every element beside it is unchanged, and every ancestor keeps its tag, attributes, text and child count |
| LoxoneIsapi.SetTextRestores | Loxone_ISAPI.py:359 | writing the old text back gives back the document |
| LoxoneIsapi.SetTextKeepsShape | Loxone_ISAPI.py:385 | writing a text keeps every position, tag and child count |
| LoxoneIsapi.SetTextBelow | Loxone_ISAPI.py:345-347 | writing below a top-level element is writing inside that element at the remaining position |
| LoxoneIsapi.SafeUrl | Loxone_ISAPI.py:11-16 | the URL starts with `http` and ends with the slash-led path |
| LoxoneIsapi.SafeUrlTrims | Loxone_ISAPI.py:12 | surrounding whitespace of the address does not matter |
| LoxoneIsapi.SafeUrlRule | Loxone_ISAPI.py:11-16 | for a stripped address: `http://` is added unless it starts with `http`, one trailing `/` is cut, and the slash-led path follows |
| LoxoneIsapi.SafeUrlAgreesWithScript | Loxone_ISAPI.py:11-16 | where both `http` tests agree and no trailing `/` is cut, the desktop tool and the front end build the same URL |
| LoxoneIsapi.SafeUrlPrefixTest | Loxone_ISAPI.py:14 | `httpcam` gets no scheme in the desktop tool, but gets `http://` in the front end |
| LoxoneIsapi.NsPrefix | Loxone_ISAPI.py:23 | a match of `ns\d+:` is `ns`, one or more digits and a colon, all deleted |
| LoxoneIsapi.NsPrefixRule | Loxone_ISAPI.py:23 | `ns`, digits and a colon are matched whatever follows |
| LoxoneIsapi.NsSuffix | Loxone_ISAPI.py:24 | a match of `:ns\d+` is a colon, `ns` and the whole run of digits that follows, all deleted |
| LoxoneIsapi.NsSuffixRule | Loxone_ISAPI.py:24 | a colon, `ns` and a whole run of digits are matched |
| LoxoneIsapi.DefaultXmlns | Loxone_ISAPI.py:25 | a match of `\sxmlns="[^"]+"` is a whitespace character, `xmlns="`, a non-empty run without quotes and the closing quote, all deleted |
| LoxoneIsapi.DefaultXmlnsRule | Loxone_ISAPI.py:25 | a whitespace character and `xmlns="v"` with a non-empty `v` are matched |
| LoxoneIsapi.PrefixedXmlns | Loxone_ISAPI.py:26 | a match of `\sxmlns:[\w]+="[^"]+"` is a whitespace character, `xmlns:`, a word, `="`, a non-empty run without quotes and the closing quote, all deleted |
| LoxoneIsapi.PrefixedXmlnsRule | Loxone_ISAPI.py:26 | a whitespace character and `xmlns:w="v"` with a word `w` and a non-empty `v` are matched |
| LoxoneIsapi.StrippingPatterns | Loxone_ISAPI.py:23-26 | all four patterns only delete |
| LoxoneIsapi.CleanXml | Loxone_ISAPI.py:18-27 | the cleaned text is never longer than the serialised text |
| LoxoneIsapi.CleanXmlUnchangedIff | Loxone_ISAPI.py:18-27 | the cleaning changes the text exactly when one of the four patterns occurs |
| LoxoneIsapi.ModuleTextScan | Loxone_ISAPI.py:23-26 | a global deletion scan turns a module's text into the same module with its tag prefix and declaration rewritten, when the names and value give the pattern nowhere to begin |
| LoxoneIsapi.NsPrefixPass | Loxone_ISAPI.py:23 | the first substitution drops `ns0:` from every tag and keeps `xmlns:ns0="u"` |
| LoxoneIsapi.DeclSurvivesNsPrefix | Loxone_ISAPI.py:23 | `xmlns:ns0="u"` passes through the first substitution unchanged, whatever follows it |
| LoxoneIsapi.DeclLosesNsSuffix | Loxone_ISAPI.py:24 | the second substitution turns `xmlns:ns0="u"` into `xmlns="u"`, whatever follows it |
| LoxoneIsapi.DefaultDeclRemoved | Loxone_ISAPI.py:25 | the third substitution removes a default declaration at the front and keeps what follows |
| LoxoneIsapi.NsSuffixPass | Loxone_ISAPI.py:24 | the second substitution changes only the declaration |
| LoxoneIsapi.DefaultXmlnsPass | Loxone_ISAPI.py:25 | the third substitution removes the default declaration |
| LoxoneIsapi.PrefixedXmlnsPass | Loxone_ISAPI.py:26 | the fourth substitution leaves a module without declarations unchanged |
| LoxoneIsapi.CleanModuleText | Loxone_ISAPI.py:18-27 | `<ns0:m xmlns:ns0="u"><ns0:l>v</ns0:l></ns0:m>` is cleaned to `<m><l>v</l></m>` for any names, value and namespace free of `n`, colons, quotes and whitespace |
| LoxoneIsapi.CleanModuleTextSample | Loxone_ISAPI.py:18-27 | `<ns0:m xmlns:ns0="u"><ns0:l>v</ns0:l></ns0:m>` is cleaned to `<m><l>v</l></m>` |
| LoxoneIsapi.LocalTag | Loxone_ISAPI.py:175-176 | a tag without `}` is kept; otherwise the part after the first `}` remains |
| LoxoneIsapi.ClarkNameLocal | Loxone_ISAPI.py:175-176 | `{uri}local` becomes `local` |
| LoxoneIsapi.Localized | Loxone_ISAPI.py:173-177 | every tag in the tree is localised; attributes, texts and the shape are kept |
| LoxoneIsapi.LocalizeTags | Loxone_ISAPI.py:173-177 | the loop over the parsed elements computes the localised tree |
| LoxoneIsapi.LocalizedPlain | Loxone_ISAPI.py:175 | a tree without `}` in any tag is unchanged |
| LoxoneIsapi.FirstTagged | Loxone_ISAPI.py:222-225 | the first child with the tag, with none before it; none exactly when no child has it |
| LoxoneIsapi.ChildCapability | Loxone_ISAPI.py:220-225 | none without a context; none exactly when no child of the context has the tag; otherwise the first child with the tag |
| LoxoneIsapi.DisplayValue | Loxone_ISAPI.py:218-228 | empty for a folder; the stripped text, or empty, for a leaf |
| LoxoneIsapi.Get | Loxone_ISAPI.py:294 | `attrib.get` finds exactly the keys present |
| LoxoneIsapi.OptString | Loxone_ISAPI.py:300 | truthy exactly when `opt` or `options` is truthy, and `opt` wins |
| LoxoneIsapi.EditKind | Loxone_ISAPI.py:290-303 | text without a capability; a list exactly when the option text is truthy, with its split options; a range exactly otherwise when both bounds are truthy and parse, with those bounds |
| LoxoneIsapi.EditOptionsWellFormed | Loxone_ISAPI.py:302 | every option offered is non-empty, stripped and free of separators |
| LoxoneIsapi.RangeBoundsAgreeWithScript | Loxone_ISAPI.py:294-297 | the slider's bounds are the numbers `parseInt` reads from the same attributes |
| LoxoneIsapi.DimmerBody | Loxone_ISAPI.py:388-393 | a body without the value's pattern is left as it is |
| LoxoneIsapi.DimmerBodyAgreesWithScript | Loxone_ISAPI.py:388-393 | for a single occurrence, the desktop tool's substitution equals the front end's |
| LoxoneExplorer.ChildRowsCount | Loxone_ISAPI.py:215-237 | every element below gets exactly one row |
| LoxoneExplorer.TreeRowsCount | Loxone_ISAPI.py:200-213 | the tree has one row per element of the configuration |
| LoxoneExplorer.ChildRowsShowValues | Loxone_ISAPI.py:216-230 | every row below names its element's tag and shows its display value |
| LoxoneExplorer.TreeRowsShowValues | Loxone_ISAPI.py:200-237 | every row other than the root shows its element's tag and display value |
| LoxoneExplorer.RowsOkParentsBefore | Loxone_ISAPI.py:230 | an item's parent was inserted before it, and the root comes first |
| LoxoneExplorer.AppendChildRow | Loxone_ISAPI.py:230-234 | inserting the row of a child keeps the tree consistent with the document |
| LoxoneExplorer.RowsOkAfterWrite | Loxone_ISAPI.py:345-346 | writing a text and a value column keeps every row consistent |
| LoxoneExplorer.RestoreRow | Loxone_ISAPI.py:359-360 | writing the old text back restores the document, and the rows stay consistent with it |
| LoxoneExplorer.ModuleIsTopLevelAncestor | Loxone_ISAPI.py:252-259 | the walk from any item other than the root finds the top-level element containing it, named by its tag |
| LoxoneExplorer.RootContext | Loxone_ISAPI.py:249-250 | the root item's context is the whole document |
| LoxoneExplorer.ApiPath | Loxone_ISAPI.py:273-279 | `BASE_PATH/<module>` for a sendable module, `BASE_PATH` otherwise |
| LoxoneExplorer.SendTarget | Loxone_ISAPI.py:334-337 | the buttons act exactly when the item is below the root and its top-level element has a name other than the root's; the target is that element |
| LoxoneExplorer.EditedModule | Loxone_ISAPI.py:345-347 | the serialised module is the item's top-level element with the new text written at the item's place below it; it keeps its tag |
| LoxoneExplorer.Shown | Loxone_ISAPI.py:360 | the value column shows the text, or `None` for a missing one |
| LoxoneExplorer.MatchCapability | Loxone_ISAPI.py:220-225 | the search loop finds the child capability |
| LoxoneExplorer.MakeRow | Loxone_ISAPI.py:216-234 | the inserted row has the child's tag, display value, position and capability |
| LoxoneExplorer.HikSmartExplorer.constructor | Loxone_ISAPI.py:96-103 | the initial address and user, an empty password, no documents, no tree and no editor |
| LoxoneExplorer.HikSmartExplorer.SetConnection | Loxone_ISAPI.py:112-117 | the entries set the address, user and password, and nothing else |
| LoxoneExplorer.HikSmartExplorer.Edit | Loxone_ISAPI.py:153 | the editor sets the edited value and nothing else |
| LoxoneExplorer.HikSmartExplorer.AddNodesRecursive | Loxone_ISAPI.py:215-237 | it appends the rows of all descendants in pre-order, and the tree stays consistent |
| LoxoneExplorer.HikSmartExplorer.AddChild | Loxone_ISAPI.py:216-237 | it appends one child's row followed by its descendants' rows |
| LoxoneExplorer.HikSmartExplorer.RebuildTree | Loxone_ISAPI.py:200-213 | the rows are the root and its descendants, consistent with the document; empty without one |
| LoxoneExplorer.HikSmartExplorer.LoadData | Loxone_ISAPI.py:166-198 | a configuration that arrived is localised and shown with its localised capabilities; otherwise nothing changes; the URLs requested |
| LoxoneExplorer.HikSmartExplorer.Install | Loxone_ISAPI.py:177-193 | the configuration and capability documents are stored and the rows rebuilt from them, consistent with the document |
| LoxoneExplorer.HikSmartExplorer.GetContextModule | Loxone_ISAPI.py:239-259 | the loop computes the item's context |
| LoxoneExplorer.HikSmartExplorer.OnTreeSelect | Loxone_ISAPI.py:261-332 | the API path follows the item's module; a folder gets no editor; a leaf gets its stripped text and its editor kind |
| LoxoneExplorer.HikSmartExplorer.DoPut | Loxone_ISAPI.py:334-365 | nothing for the root; otherwise a request exactly when confirmed, with the module carrying the edit; 200, 201 or an exception keep the edit; otherwise the document is as before and the column shows the old text |
| LoxoneExplorer.HikSmartExplorer.WriteAndSend | Loxone_ISAPI.py:339-365 | the part after the module check, with the same outcome |
| LoxoneExplorer.HikSmartExplorer.KeepWrite | Loxone_ISAPI.py:345-346 | the new value stays in the element and in the value column, and the rows stay consistent with the edited document |
| LoxoneExplorer.HikSmartExplorer.WriteThenRestore | Loxone_ISAPI.py:343-346 | the value is written and the old text written back: the document is as before and the column shows the old text |
| LoxoneExplorer.HikSmartExplorer.ShowLoxone | Loxone_ISAPI.py:367-397 | for a sendable module a dialog with the credentialed address, the module path and the cleaned module body (with the placeholder for a slider); document and tree unchanged |
| LoxoneExplorer.HikSmartExplorer.LoxoneBody | Loxone_ISAPI.py:383-393 | the body is the module cleaned with the edited value written in, and for a slider the value inside the item's tag replaced by the placeholder |

## Left out

- Network, authentication headers, timeouts, status messages, logging, the loading flag and every widget are left out. Answers from the camera are parameters of the operations that use them.
- The XML parsers (`DOMParser`, `ET.iterparse`) and serialisers (`XMLSerializer`, `ET.tostring`) are library code. A parsed document is a parameter, and a serialiser is a function parameter.
- `import.meta.env.PROD` is a parameter of the front end's URL functions.
- Node ids come from `Math.random()`. The model draws them from a counter, so they are distinct; random ids are only very likely to be.
- Character classes are ASCII. `\s`, `\w`, `\d`, `trim()` and `strip()` are modelled on ASCII whitespace, word characters and digits. Unicode is not modelled.
- Strings.IsSpace: the whitespace class is space, tab, line feed, carriage return, vertical tab and form feed. Python's `strip`, `int` and `re` `\s` also count U+001C to U+001F as whitespace, and JavaScript's `trim` and `\s` do not. For text holding those characters, `LoxoneIsapi.EditKind`, `LoxoneIsapi.DisplayValue`, `Strings.PyInt`, `LoxoneIsapi.DefaultXmlns` and `LoxoneIsapi.PrefixedXmlns` are not modelled, and `Strings.PythonAndScriptOptionsAgree` and `Strings.PyIntAgreesWithJsParseInt` are claimed only without them.
- Python `int` is modelled on an optional sign and decimal digits with surrounding whitespace. Underscores between digits and non-ASCII digits are left out.
- JavaScript numbers are unbounded integers in the model. Double rounding of huge bounds is not modelled.
- A DOM element keeps all its character data in one text before its children. Mixed content and Python's `tail` texts are not modelled.
- The desktop tool's slider works with floats. Its `Scale` callback, which rewrites the edited value to `int(float(v))` when the slider is first set, is not modelled. The value being edited is whatever `Edit` last stored.
- LoxoneExplorer.HikSmartExplorer.LoadData: drops the editor's buttons when a new tree is built. In the desktop tool those buttons stay on screen, but they name items that no longer exist, so pressing one raises before anything changes.
- LoxoneIsapi.DimmerBody: its own contract covers only a body without the pattern. `LoxoneIsapi.DimmerBodyAgreesWithScript` states the result for a single occurrence. A body with several occurrences is not characterised beyond the replace-all definition.
- The front end's `HandlePut`/`HandleShowLoxone` and the desktop tool's `DoPut`/`ShowLoxone` require a leaf selection. The editor offers its buttons only for leaves (`App.tsx:265-269`, `Loxone_ISAPI.py:283-285`).
- `WriteAndSend`, `EditedPayload`, `LoxoneBody`, `LoxoneRequest`, `KeepEdit`, `KeepWrite`, `WriteThenRestore`, `ShowTree`, `Install`, `KeepNonXmlns`, `RemoveNamespacesAll`, `AddChild`, `MakeRow` and `MatchCapability` are parts of one source function each, split off so that each proof stays small.
- The handlers serialise the module from the edited copy of the document and store the document once, at the end of each branch. The source writes the value into the live element first and reads it back from there. No other code runs between the write and the restore, so the order of the steps within one handler is not modelled.
- The asynchronous interleaving of `handlePut` with other events, and the concurrency of the Tk event loop, are not modelled. Each handler runs to completion.
- `LoxoneDialog` and `LoxoneModal` only display their text and are not modelled. The `\v` hint is not modelled either.

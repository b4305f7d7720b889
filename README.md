# linkedom element core, modelled in Dafny

linkedom is a DOM for server-side JavaScript. It does not keep an element's
children in an array. Each element is a start node in one doubly linked
chain. The node is followed by its attribute nodes (the "attribute run"),
then its content, then its paired END node. `next[NEXT]` steps to the
following node, and an element's `[END]` is its closing node. The element
methods are walks along that chain.

The model has four parts.

- **The chain** (`Chain`). A `seq<Node>` whose tokens are `Start`, `Attr`,
  `Text`, `Comment`, `CData` and `End`. An element is the index of its
  `Start`, and `EndOf` finds its END by depth.
  - `WellFormed`: depths balance, and attributes sit only directly after a
    start node or another attribute.
  - `Sound`: well-formed, with distinct object identities (`key`) all below
    the next free identity, and no attribute name twice in one run
    (`NamesApart`).
- **The element methods** (`Elements.Document`). A class holding the chain
  and the next free identity. Its methods walk the chain with loops, and each
  is proved against a specification function. These functions live in:
  - `Attributes` for the attribute run;
  - `Texts` for textContent and innerText;
  - `Clones` for cloneNode;
  - `Serialize` for toString;
  - `Tree` for closest and insertAdjacentElement.

  Every mutating method keeps `Sound`.
- **The shadow roots** (`Shadows`). The side table from host to shadow
  root.
- **Links and style sheets.**
  - `Links` holds `HTMLLinkElement`, with its reflected attributes and its
    cached sheet.
  - `JsStrings` holds `String.prototype.trim` (sections 12.2 and 12.3 of
    ECMA-262 give the white-space set).
  - `StyleSheets` holds `StyleSheetList.item`/`length`, and the count of
    `<style>` and `<link rel="stylesheet">` elements that `document.styleSheets`
    reports in the repository's tests.

## Model

| member | source | states |
|---|---|---|
| Attributes.FindAttr | esm/interface/element.js:305-312 | the first attribute of the run with that name; None when no attribute of the run has the name |
| Elements.Document.GetAttributeNode | esm/interface/element.js:305-312 | the loop over the run returns exactly FindAttr |
| Attributes.RunNames | esm/interface/element.js:314-322 | one name per attribute of the run, in chain order |
| Elements.Document.GetAttributeNames | esm/interface/element.js:314-322 | the loop collects exactly RunNames |
| Attributes.HasAttrIffNamed | esm/interface/element.js:324-326 | hasAttribute holds iff the name is among the run's names |
| Elements.Document.HasAttribute | esm/interface/element.js:324-326 | the result is true iff the name is in the run |
| Elements.Document.HasAttributes | esm/interface/element.js:327-329 | the result is true iff the run is non-empty |
| Attributes.RemoveAttrSpec | esm/interface/element.js:331-341 | does nothing without the name; otherwise exactly the first attribute of that name leaves the chain, and the run's names lose that one entry |
| Attributes.RemoveAttrNames | esm/interface/element.js:331-341 | with the name present, the run's names lose exactly the entry of its first attribute |
| Attributes.RemoveAttrGone | esm/interface/element.js:331-341 | when the run's names are distinct, the name is absent afterwards |
| Attributes.RunNamesApart | esm/interface/element.js:354-373 | in a chain where no run holds a name twice (part of Sound), every run's names are distinct |
| Attributes.RemoveAttrWalk | esm/interface/element.js:333-340 | the walk stops at the first attribute of the name, or past the run; that is the node RemoveAttr unlinks, or nothing |
| Attributes.RemoveAttrSound | esm/interface/element.js:331-341 | removeAttribute keeps the chain sound |
| Elements.Document.RemoveAttribute | esm/interface/element.js:331-341 | the new chain is RemoveAttr of the old one, the document stays valid, and the name is absent afterwards |
| Attributes.RemoveNodeSpec | esm/interface/element.js:343-352 | removes exactly the run's node that is that object, and does nothing when the object is not in the run |
| Attributes.RemoveNodeWalk | esm/interface/element.js:344-351 | the walk stops at the run's node that is the object, or past the run; that is the node RemoveNode unlinks, or nothing |
| Attributes.RemoveNodeSound | esm/interface/element.js:343-352 | removeAttributeNode keeps the chain sound |
| Elements.Document.RemoveAttributeNode | esm/interface/element.js:343-352 | the new chain is RemoveNode of the old one, and the document stays valid |
| Attributes.SetAttrSpec | esm/interface/element.js:354-361 | the name is present with the new value; an existing attribute changes value in place and nothing else changes; a missing one is added once, at the head of the run |
| Attributes.SetAttrSound | esm/interface/element.js:354-361 | setAttribute with a fresh identity keeps the chain sound |
| Chain.InsertHeadNamesApart | esm/interface/element.js:358-359 | linking an attribute whose name the run lacks keeps every run free of repeated names |
| Chain.RemoveAtNamesApart | esm/interface/element.js:331-352 | unlinking an attribute keeps every run free of repeated names |
| Elements.Document.SetAttribute | esm/interface/element.js:354-361 | the new chain is SetAttr of the old one; an identity is used only when the name was absent |
| Attributes.ToggleSpec | esm/interface/element.js:375-387 | the result is whether the name is present afterwards; no force flips presence, a truthy force gives presence and a falsy one absence; no change leaves the chain as it was |
| Attributes.ToggleSound | esm/interface/element.js:375-387 | toggleAttribute keeps the chain sound |
| Attributes.ToggleSoundSpec | esm/interface/element.js:375-387 | on a sound chain: the result is presence afterwards, flipped without force, true with a truthy force, false with a falsy one, and the chain stays sound |
| Elements.Document.ToggleAttribute | esm/interface/element.js:375-387 | the new chain and the result are those of Toggle; the result is whether the name is present afterwards, flips presence without force, is true with a truthy force and false with a falsy one; an identity is used only when an attribute is added; the document stays valid |
| Attributes.SetAttrNodeSpec | esm/interface/element.js:363-373 | returns the attribute the run had under that name (or null), and afterwards the run's attribute of that name is the given object; when it already was, nothing changes; otherwise the chain is the old one less the previous attribute, with the object taken from its owner and linked at the head of the run, and nothing else changes |
| Attributes.SetAttrNodeMoved | esm/interface/element.js:365-371 | when the object is not already the run's attribute of its name, the chain and the element's index are those of detaching it after removeAttribute, with the object linked first in the run |
| Attributes.SetAttrNodeRun | esm/interface/element.js:363-373 | after a replacement the run is the object's name followed by the run removeAttribute(name) leaves; with nothing to replace, the name in front of the old run |
| Attributes.SetAttrNodeGone | esm/interface/element.js:366-367 | with distinct objects, the replaced attribute is nowhere in the chain afterwards |
| Attributes.FoundByKey | esm/interface/element.js:363-373 | with distinct objects, removing the previous attribute by identity is removing it by name |
| Attributes.SetAttrNodeSound | esm/interface/element.js:363-373 | setAttributeNode keeps the chain sound, including when the attribute is taken from another element |
| Attributes.Adopt | esm/interface/element.js:368-371 | after detaching from its owner, the attribute sits at the head of the element's run, and the element keeps its start node |
| Attributes.DetachShape | esm/interface/element.js:368-369 | the owner's removeAttributeNode unlinks exactly the object's node when it is in the chain, and the element's index drops by one when that node was before it; otherwise nothing changes |
| Attributes.DetachSound | esm/interface/element.js:368-369 | taking the object from its owner keeps the chain sound, and the object is nowhere in it afterwards |
| Attributes.DetachKeepsRun | esm/interface/element.js:368-369 | when the element has no attribute of the object's name, taking the object from its owner leaves the element's run names as they were |
| Attributes.AdoptNames | esm/interface/element.js:368-371 | after adoption the element's run is the object's name followed by its old run |
| Attributes.LinkHead | esm/interface/element.js:371 | linking an object that is in no run, under a name the run lacks, keeps the chain sound |
| Attributes.AdoptSound | esm/interface/element.js:368-371 | adoption keeps the chain sound, and the run is the object's name followed by the old run |
| Elements.Document.AdoptAttribute | esm/interface/element.js:368-371 | the new chain and the element's new index are those of Adopt |
| Elements.Document.SetAttributeNode | esm/interface/element.js:363-373 | the new chain, the returned attribute and the element's index are those of SetAttrNode |
| Texts.TextOfSplit | esm/interface/element.js:246-256 | the collected text of a stretch is the text of its two halves joined |
| Texts.TextOfSilent | esm/interface/element.js:246-256 | a stretch without Text or CDATA nodes contributes nothing |
| Elements.Document.TextContent | esm/interface/element.js:246-256 | the loop returns the Text and CDATA data between the element and its END, in order |
| Texts.SetTextContentSpec | esm/interface/element.js:258-262 | afterwards the element holds its attribute run and only the new Text node (none for null or ""), and textContent reads the value back (null reads back as "") |
| Texts.SetTextContentShape | esm/interface/element.js:258-262 | the chain before the content is unchanged, and the END follows the new text |
| Texts.SetTextContentSound | esm/interface/element.js:258-262 | setting textContent keeps the chain sound |
| Elements.Document.SetTextContent | esm/interface/element.js:258-262 | the new chain is SetTextContent of the old one, and the document stays valid |
| Texts.CollapseCollapsed | esm/interface/element.js:230 | replacing every white-space run by one blank leaves no white space but single blanks |
| Texts.CollapseVisible | esm/interface/element.js:230 | collapsing keeps every visible character, in order |
| Texts.CollapseIdempotent | esm/interface/element.js:230 | collapsing again changes nothing |
| Texts.InnerWalk | esm/interface/element.js:225-241 | the loop returns exactly InnerText, the join of the pieces pushed |
| Texts.InnerPiecesShape | esm/interface/element.js:225-241 | every piece is collapsed text or a line break, and a line break comes only after something was pushed |
| Texts.InnerPiecesNoText | esm/interface/element.js:225-241 | without Text nodes nothing is pushed, so no line break appears either |
| Texts.InnerTextChars | esm/interface/element.js:225-241 | the only white space in innerText is ' ' and '\n'; each text piece is collapsed, but two pieces may meet at blanks |
| Elements.Document.InnerText | esm/interface/element.js:225-241 | the document method returns InnerText |
| Clones.CloneWalk | esm/interface/element.js:464-504 | the loop builds exactly Clone, and uses one fresh identity per copied element or attribute |
| Clones.CloneShape | esm/interface/element.js:464-504 | the clone copies the nodes from the start node up to where the walk stops, then an END; a deep clone has the element's exact shape |
| Clones.CloneShallow | esm/interface/element.js:471-494 | a shallow clone copies the start node and the attribute run (names and values in order), and no content |
| Clones.CloneSound | esm/interface/element.js:464-504 | the clone is well-formed, its identities are distinct, and they are all fresh |
| Clones.CloneLevels | esm/interface/element.js:475-487 | the clone is balanced, and every node after its start lies inside it |
| Clones.CloneParents | esm/interface/element.js:466-487 | each copied node's parent corresponds to the original node's parent |
| Clones.CloneDetached | esm/interface/element.js:464-504 | the clone is a detached element made of fresh objects |
| Elements.Document.CloneNode | esm/interface/element.js:464-504 | the chain is unchanged, the result is Clone, and nextKey advances by the identities used |
| Serialize.AttrPiece | esm/interface/element.js:513-523 | an attribute adds a blank and its string form, unless that form is exactly id, class or style |
| Serialize.WalkFlag | esm/interface/element.js:507-557 | isOpened at the END is set iff the node before it is the element's start or one of its attributes |
| Serialize.RenderElement | esm/interface/element.js:507-557 | the output is "<name", the attributes, then a self-closing end when there is no content, otherwise ">", the content and "</name>" |
| Serialize.WalkGt | esm/interface/element.js:534-551 | on content after an open start tag, only the ">" is added in front |
| Serialize.InlineChild | esm/interface/element.js:534-545 | a child element that shares toString is serialized inline as its own rendering |
| Elements.Document.ToString | esm/interface/element.js:507-557 | the loop returns exactly Render |
| Tree.Closest | esm/interface/element.js:416-422 | the nearest ancestor-or-self that matches; None when no ancestor-or-self matches |
| Tree.ClosestEncloses | esm/interface/element.js:416-422 | the element found contains the one closest was called on |
| Elements.Document.Closest | esm/interface/element.js:416-422 | the loop up the parents returns Tree.Closest |
| Tree.InsertAdjacentNull | esm/interface/element.js:426-449 | null comes back exactly for beforebegin and afterend without a parent; an unknown position changes nothing |
| Tree.InsertBeforeBegin | esm/interface/element.js:429-433 | the new element becomes the previous sibling, with the same parent |
| Tree.InsertAfterBegin | esm/interface/element.js:435-437 | the new element becomes the first child, right after the attribute run |
| Tree.InsertBeforeEnd | esm/interface/element.js:438-440 | the new element becomes the last child, right before the END |
| Tree.InsertAfterEnd | esm/interface/element.js:441-445 | the new element becomes the next sibling, with the same parent |
| Tree.InsertAdjacentSound | esm/interface/element.js:426-449 | inserting a detached element of fresh objects keeps the chain sound |
| Elements.Document.InsertAdjacentElement | esm/interface/element.js:426-449 | the new chain and the result are those of InsertAdjacent |
| Shadows.ShadowRootOf | esm/interface/element.js:391-397 | the root iff the host has one attached in open mode |
| Shadows.Attach | esm/interface/element.js:399-409 | refused iff the host has a root; otherwise only the host's entry is added |
| Shadows.AttachThenGet | esm/interface/element.js:391-409 | after attaching, the getter shows the root iff the mode is open, and other hosts are unaffected |
| Shadows.AttachOnce | esm/interface/element.js:399-400 | a second attachShadow on a host is refused, whatever its mode |
| Shadows.ShadowRoots.AttachShadow | esm/interface/element.js:399-409 | an error iff the host has a root; otherwise a fresh root for that host, recorded as Attach says |
| Links.StringAttribute | cjs/html/link-element.js:31-44 | the attribute's value, or "" when it is absent |
| Links.HTMLLinkElement.constructor | cjs/html/link-element.js:16-19 | a new link has no cached sheet |
| Links.HTMLLinkElement.Disabled | cjs/html/link-element.js:22 | disabled is whether the attribute is present |
| Links.HTMLLinkElement.SetDisabled | cjs/html/link-element.js:23 | adds the attribute empty or removes it; the cached sheet stays |
| JsStrings.Trim | cjs/html/link-element.js:25 | the result is no longer than the input, and has no white space at either end |
| JsStrings.TrimCuts | cjs/html/link-element.js:25 | trim removes exactly the leading and the trailing white space |
| JsStrings.TrimIdempotent | cjs/html/link-element.js:25 | trimming twice is trimming once |
| Links.HTMLLinkElement.Href | cjs/html/link-element.js:25 | href is the trimmed attribute value |
| Links.HTMLLinkElement.SetHref | cjs/html/link-element.js:26-29 | stores the value and drops the cached sheet |
| Links.HTMLLinkElement.SetRel | cjs/html/link-element.js:37-41 | stores the value and drops the cached sheet |
| Links.HTMLLinkElement.SetStringAttribute | cjs/html/link-element.js:31-35 | hreflang, media and type store the value and keep the cached sheet |
| Links.HTMLLinkElement.Sheet | cjs/html/link-element.js:49-62 | null iff rel is not "stylesheet"; otherwise the cached sheet, or a fresh empty one that is cached from then on |
| StyleSheets.Item | esm/interface/style-sheet-list.js:15-17 | the entry at the index when one is there; null for any index outside the list |
| StyleSheets.Length | esm/interface/style-sheet-list.js:22-24 | the number of entries |
| StyleSheets.ItemBelowLength | esm/interface/style-sheet-list.js:15-24 | item returns an entry only below length, and returns the entry there |
| StyleSheets.CountJoin | test/interface/style-sheets-comprehensive.js:37 | the sheet count of two chains joined between elements is the sum of their counts |
| StyleSheets.InsertCount | test/interface/style-sheets.js:41-45 | inserting an element adds its own sheet count |
| StyleSheets.AppendCount | test/interface/style-sheets.js:41-45 | appending an element to a parent adds its own sheet count |
| StyleSheets.StyleBringsOne | test/interface/style-sheets.js:41-45 | a style element brings exactly one sheet |
| StyleSheets.LinkBrings | test/interface/style-sheets-comprehensive.js:55-59 | a link brings one sheet iff its rel is "stylesheet" |
| StyleSheets.TestHeadCount | test/interface/style-sheets-comprehensive.js:6-37 | the test document's head holds four sheets: two styles and two stylesheet links, not the icon link |
| StyleSheets.Appends | test/interface/style-sheets-comprehensive.js:62-86 | appending a style adds one sheet, then a stylesheet link one more, then an icon link none |

## Left out

- The "class" special cases of setAttribute and removeAttribute: `className` and `classList` are not part of this model.
- The proxied `attributes` record, `classList`, `dataset` and `style` objects are not modelled.
- `getAttribute` and attribute-value escaping are not modelled.
- The selector engine is not modelled. `closest` takes the prepared match as a parameter `matches: nat -> bool`.
- `insertAdjacentHTML` and `insertAdjacentText` are not modelled. They need the HTML parser and the Text node constructor.
- The `innerHTML` and `outerHTML` getters and setters, events, `focus` and `getBoundingClientRect` are not modelled. They need the parser, the event system or layout.
- The `...NS` aliases, `toJSON` and the simple reflected properties (`id`, `nonce`, `slot`, `tabIndex`) are not modelled.
- `tagName` upper-casing is not modelled. innerText takes `BLOCK_ELEMENTS` as the parameter set `blocks` of the names it compares.
- shared/attributes.js is not part of this model. The model assumes its `setAttribute` links a new attribute directly after the element (at the head of the run), and that `stringAttribute.get` gives "" for a missing attribute.
- `removeAttribute` of shared/attributes.js, which also clears the attribute's owner, is modelled only as unlinking the node.
- The parentNode link is not stored: a node's parent is the enclosing start node by position (`ParentOf`).
- Elements.Document.InsertAdjacentElement: only a detached element made of fresh objects is inserted. Moving an element that is already in the document is not modelled.
- Elements.Document.SetAttributeNode: the previous attribute is removed by identity, as the source does. Its effect is stated through `RemoveAttr`, which equals it by `FoundByKey`.
- Serialize.Renderer: the string forms of attribute, text, comment and CDATA nodes, `isVoid`, `ignoreCase`, and a subclass's own `toString` are parameters, not models.
- The `ShadowRoot` object is only its host. DocumentFragment behaviour is not modelled.
- Links.HTMLLinkElement.Sheet: `cssom.parse('')` is modelled as a fresh sheet with no rules.
- Links.HTMLLinkElement: link attributes are a name-to-value map. Only the link's own `href`/`rel` setters reset the cache; a generic `setAttribute('rel', ...)` is not linked to it.
- StyleSheets.Item: takes an integer index. JavaScript's property lookup with non-integer or string indices is not modelled.
- The cjs copy of style-sheet-list.js duplicates the esm one and is not modelled separately.
- The `styleSheets` getter of document.js is not part of this model. `StyleSheetCount` restates what the tests expect it to count: `<style>` elements and `<link>` elements whose rel is "stylesheet".
- StyleSheets.TestHeadCount: covers only the test document's `<head>`. The `<html>` and `<body>` elements and the white-space text nodes add no sheet, and `CountJoin` composes such pieces.
- The textContent of non-element nodes is not modelled; only the element getter is.
- Integers are unbounded. No JavaScript number limits apply to indices or identities.

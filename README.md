# DepictJS dependency graph, modelled in Dafny

DepictJS takes a dropped project folder and draws the dependency graph of its
JavaScript and TypeScript files. This project models the part of
`src/UIFlowGenerator.js` that computes the graph, and proves properties of it.

- **The scan** (`parseNextJSFiles`). The folder is walked with an explicit
  stack. Every file whose name ends in `.js`, `.jsx`, `.ts` or `.tsx` is read.
  Two global regular expressions pull the import specifiers and the exported
  names out of its text. The resulting record is stored under the file's base
  name.
- **The graph** (`generateGraph`, up to its layout call). There is one node
  per record, in key order. The node's id is its index as a decimal string
  and its label is the key. For every record and every one of its import
  specifiers, there is one edge to the first record whose key matches the
  specifier under a loose substring rule.

## Modules

- `Wrappers`: `Option`.
- `Strings`: the string primitives.
  - `startsWith`, `endsWith` and `includes`.
  - The JavaScript `\s` and `\w` classes.
  - `toString()` of a non-negative integer.
- `Dict`: an insertion-ordered dictionary. It stands for both the object
  `components` and the `Map` `componentMap`. Every key is a file name
  containing a `.`, so no key is an array index. `Object.entries` therefore
  lists keys in first-insertion order. Assigning to a present key keeps its
  place.
- `Extensions`: the pattern `/\.(js|jsx|ts|tsx)$/`, used both as a filter
  and to strip an extension.
- `Extract`: the two regular expressions, each written as a scanner that
  decides whether the regex matches at one position and what it captures.
  `MatchAll` models `matchAll`: the leftmost match, then the search resumes
  at the match's end. Each greedy run can succeed only at its longest
  extent, because what the pattern needs next is never a character of the
  run's class. So the only backtracking left is over the alternatives, and
  the scanners try them in the regex's priority order. For imports that is
  the `{...}` binding, then the `\S+` binding (which may itself start with
  `{`), then no binding. For exports it is the `default` group, then none.
  The file header explains this in more detail.
- `Scan`: the directory tree as a datatype, with the stack loop as a method.
  `Visit` is the pop order and `Collect` is the dictionary the loop builds.
  The lemmas about them state which files become records and which value
  wins under a repeated name.
- `Resolve`: the `find` predicate (`Matches`) and the first-match search
  (`FirstMatch`).
- `Graph`: the node pass and the edge pass as methods.
  - The edges are specified in two layers. `Links(c)` is the list of
    (source, target, import index) triples in emission order. `Render` turns
    each triple into an edge with the ids the source code writes.
  - `Table(c)` resolves every specifier once, so the order, id and endpoint
    lemmas look only at that table.

## Model

| member | source | states |
|---|---|---|
| Strings.IncludesIff | src/UIFlowGenerator.js:133 | `includes` is true exactly when the needle occurs at some offset, so the empty string is contained in every key |
| Strings.NatToStringRoundTrip | src/UIFlowGenerator.js:119 | the decimal string of an index reads back as that index |
| Strings.NatToStringInjective | src/UIFlowGenerator.js:119 | distinct indices give distinct `toString()` strings |
| Extensions.StripExtensionRemovesSuffix | src/UIFlowGenerator.js:133 | stripping with the extension pattern removes exactly one trailing source extension, and leaves every other name unchanged |
| Extensions.StripExtensionRoundTrip | src/UIFlowGenerator.js:90 | a stem with a source extension appended passes the filter, and stripping gives the stem back |
| Dict.Put | src/UIFlowGenerator.js:95 | assigning a key stores the value under it and leaves every other key and value as they were; a new key goes last in enumeration order, a present key keeps its place |
| Extract.RunEnd | src/UIFlowGenerator.js:93-94 | a greedy repetition stops at the end of the longest run of its class |
| Extract.ImportAtSound | src/UIFlowGenerator.js:93 | an import match starts with `import` and whitespace, and ends with a non-empty, quote-free specifier between two quotes |
| Extract.ImportBareMatches | src/UIFlowGenerator.js:93 | `import` followed by whitespace and a quoted non-empty specifier always matches |
| Extract.ImportNameBindingMatches | src/UIFlowGenerator.js:93 | `import Name from 'x'` matches and captures exactly `x`, also when the binding word starts with `{` and the braced alternative fails, as in `import {a}b from 'x'` |
| Extract.ImportBraceBindingMatches | src/UIFlowGenerator.js:93 | `import { a, b } from 'x'` matches and captures exactly `x` |
| Extract.ExportAtSound | src/UIFlowGenerator.js:94 | an export match starts with `export` and whitespace, and captures a non-empty run of word characters that ends the match and cannot be extended |
| Extract.ExportAtHasShape | src/UIFlowGenerator.js:94 | every export match has the regex's full shape: `export`, whitespace, optionally `default` and whitespace, one of `function`, `class`, `const`, whitespace, then the captured name; with `ExportShapeMatches` this gives both directions of an if-and-only-if |
| Extract.DeclarationAtSound | src/UIFlowGenerator.js:94 | after the keyword and whitespace, the captured name is the whole maximal run of word characters |
| Extract.DeclarationAtKeyword | src/UIFlowGenerator.js:94 | a declaration starts with `function`, `class` or `const`, followed by whitespace up to the name |
| Extract.ExportShapeMatches | src/UIFlowGenerator.js:94 | every string of the shape `export`, whitespace, optional `default` plus whitespace, keyword, whitespace, word characters is matched, and the captured name is the full word |
| Extract.KeywordEndIs | src/UIFlowGenerator.js:94 | each of `function`, `class`, `const` is recognised as itself |
| Extract.MatchAll | src/UIFlowGenerator.js:93-94 | `matchAll` yields successful attempts in source order, without overlap |
| Extract.MatchAllLeftmost | src/UIFlowGenerator.js:93-94 | no match is missed: every successful attempt from the search start either is returned or lies inside a returned match |
| Extract.MatchesOf | src/UIFlowGenerator.js:93-94 | every returned match is a match of the pattern at its start, in source order without overlap |
| Extract.Imports | src/UIFlowGenerator.js:93 | every extracted import specifier is non-empty and contains no quote |
| Extract.Exports | src/UIFlowGenerator.js:94 | every extracted export name is a non-empty run of word characters |
| Scan.VisitFindsEveryFile | src/UIFlowGenerator.js:85-103 | the stack loop pops every file of the tree exactly once, and pops nothing else (the two are permutations) |
| Scan.PushAll | src/UIFlowGenerator.js:99-101 | a directory's children go on top of the stack in iteration order |
| Scan.ParseFiles | src/UIFlowGenerator.js:82-108 | the loop terminates, and the dictionary it returns is the one built by processing the files in pop order |
| Scan.Process | src/UIFlowGenerator.js:89-97 | processing one file keeps the dictionary well formed |
| Scan.ProcessKeepsOthers | src/UIFlowGenerator.js:95 | processing a file never changes the record of a different name |
| Scan.CollectKeys | src/UIFlowGenerator.js:89-95 | a name is a key exactly when some processed file with that name is a source file |
| Scan.ParsedKeys | src/UIFlowGenerator.js:85-103 | the keys are exactly the names of the source files anywhere in the tree |
| Scan.CollectLastWins | src/UIFlowGenerator.js:95 | a key's record is the extraction of the last processed source file with that name |
| Scan.CollectSize | src/UIFlowGenerator.js:95 | there are at most as many records as source files |
| Scan.CollectOrderIsFirstOccurrence | src/UIFlowGenerator.js:95 | keys are listed in order of first occurrence: every file named by a later key is preceded by a file named by an earlier key |
| Resolve.StripDotSlash | src/UIFlowGenerator.js:132 | exactly one leading `./` is removed, and only when present |
| Resolve.StripDotSlashOnce | src/UIFlowGenerator.js:132 | a second `./` is kept |
| Resolve.StripDotSlashKeepsParent | src/UIFlowGenerator.js:132 | `../` is kept |
| Resolve.FirstMatchIsFirst | src/UIFlowGenerator.js:131-134 | the resolved key matches, no earlier key matches, and there is no target exactly when no key matches |
| Resolve.EmptySpecifierMatchesFirst | src/UIFlowGenerator.js:132-133 | a specifier that is empty once stripped resolves to the first key |
| Resolve.BareExtensionKeyMatchesAll | src/UIFlowGenerator.js:133 | a key that is only an extension matches every specifier, so nothing resolves past it |
| Resolve.SelfImportResolves | src/UIFlowGenerator.js:131-134 | the importing file itself is eligible: a self-import resolves at or before the importer |
| Resolve.ShortNameFalsePositive | src/UIFlowGenerator.js:131-134 | `./b` resolves to `button.js` when that key comes before `b.js` |
| Resolve.SiblingImportResolves | src/UIFlowGenerator.js:131-134 | `./b` resolves to `b.js` when the only earlier key is `a.js` |
| Graph.CreateNodes | src/UIFlowGenerator.js:117-126 | one node per record in key order: node `i` has id `toString(i)` and label the `i`-th key, and the map holds each node under its key, in the same order |
| Graph.SourceEdges | src/UIFlowGenerator.js:130-144 | one record's edges are the rendering of its links: one per resolved import, in import order |
| Graph.GenerateGraph | src/UIFlowGenerator.js:110-145 | the nodes are as above, and the edges are the rendering of all links in emission order |
| Graph.SourceLinksSound | src/UIFlowGenerator.js:130-143 | each link of a record comes from that record, names one of its imports, points at that import's target, and follows import order |
| Graph.SourceLinksComplete | src/UIFlowGenerator.js:130-143 | every resolved import of a record produces its link |
| Graph.LinksUpToSound | src/UIFlowGenerator.js:129-145 | every link names a record, one of its imports and that import's target, and the links are ordered by source index, then import index |
| Graph.LinksUpToComplete | src/UIFlowGenerator.js:129-145 | every resolved import of every record produces its link |
| Graph.LinksOfExactly | src/UIFlowGenerator.js:129-145 | a link is produced exactly when its table entry resolves to its target |
| Graph.LinksExactly | src/UIFlowGenerator.js:129-145 | a link is in the graph exactly when its source is a record, its import index names one of that record's specifiers, and that specifier's first match is its target |
| Graph.EdgeCountBounded | src/UIFlowGenerator.js:129-145 | there are at most as many edges as import specifiers |
| Graph.NodeIdInjective | src/UIFlowGenerator.js:119 | distinct node indices give distinct node ids |
| Graph.EdgeIdInjective | src/UIFlowGenerator.js:137 | an edge id determines its source index, target index and import index |
| Graph.EdgeIdsDistinct | src/UIFlowGenerator.js:137 | no two edges share an id |
| Graph.EdgesJoinNodes | src/UIFlowGenerator.js:137-142 | the source and target of every edge are ids of existing nodes, so no edge dangles |
| Graph.GraphEdgesWellFormed | src/UIFlowGenerator.js:129-145 | for a dictionary of records: the edge count is bounded by the number of specifiers, the ids are distinct, and the endpoints are node ids |

## Left out

- `getLayoutedElements` (src/UIFlowGenerator.js:25-57) and the call to it. It wraps the external `dagre` layout library, and its positions are floating point.
- The node payload the layout and the renderer use (`type: 'custom'`, `position: { x: 0, y: 0 }`). It is the same constant for every node, so `Node` keeps only the id and the label.
- React state, hooks, the drag and drop handlers, `onDrop` and `getAsFileSystemHandle` (src/UIFlowGenerator.js:59-80, 155-183). These are browser event plumbing.
- `setNodes`, `setEdges`, `setDebugInfo` and `console.log`. These are diagnostics and state setters. `GenerateGraph` returns the nodes and edges instead.
- `await entry.getFile()` and `file.text()`. That I/O is replaced by the content stored in each `File` entry. In the source a rejected read aborts the whole `parseNextJSFiles` call, since nothing catches it (src/UIFlowGenerator.js:91-92), so no graph is built. The model has no failing read. The directory iterator `entry.values()` becomes the `children` sequence, whose order is taken as given.
- The `await` points of the scan. Nothing else runs against the loop's state, so it is modelled as a plain sequential loop.
- JSX rendering (`CustomNode`, the component's return value) and the files `src/App.js`, `src/index.js`, `src/LandingPage.js`, `src/AboutSection.js`. They are UI markup and are not part of this model.
- Features described for the tool but absent from `src/UIFlowGenerator.js`: pruning, depth computation, visibility thresholds, stripping of `../`, an ignore list, extensions beyond the four, and vector export. The model follows the code, which has none of them.
- Extract.Imports: text is a sequence of Unicode scalar values, while JavaScript strings are UTF-16 code units. A character outside the Basic Multilingual Plane counts as one position here, not two. It lies in `\S` and `[^'"]` and not in `\w`, just as both of its halves do, so the captured strings are the same. Only the positions differ.
- Extract.Exports: same encoding remark as `Extract.Imports`.
- Graph.GenerateGraph: the edge pass is written as one method per record (`SourceEdges`) whose edges are appended in order. This replaces pushing each edge into one shared array; the resulting list is the same.

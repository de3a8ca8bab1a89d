# A verified model of the process-engine wrapper

The wrapper stands between a process platform and a set of BPMN engines. This project models its
four cores in Dafny and proves what each of them is for:

1. **The path engine** of its XML tree library: a small query language, its hand-written compiler, and
   an evaluator driven by a ring-buffer queue, two swapped buffers and a result map.
2. **The document**: a tree of objects with parent pointers, its serializer, the stack loop that reads
   it, indentation, deep copy, and the two rewrites every deployed process goes through.
3. **Shard assignment** over two tables, with a two-layer expiring cache in front.
4. **The deploy/delete saga** over three stores that are kept in step by compensation and a
   commit/rollback pair, and the clean-up tools for what a failure leaves behind.

## How the model is built

Code that changes objects is modelled with classes and loops (`Fifos.Fifo`, `PathEngine.Pather`,
`PathCompiler.Compiler`, `ETree.Element`, `Cache.LayeredCache`, `Shards.Service`,
`VidRelation.Relation`, `Engine.Camunda`, `Saga.Controller`). Each method is tied to a function on
values, and the theorems are about those functions.

- `PathModel` gives a path its meaning by plain recursion: a segment maps a list of elements to a list,
  a group is a flat map, a path is the de-duplicated union. `PathEngine` proves that the evaluator
  computes it. A `Store` is a picture of the elements; `HeapStore` shows that every tree of objects has
  one, so the assumptions of the evaluator (`Forest`, `Pictured`) hold for every finite tree.
- `HeapTree.ITree` is a tree of object identities. `Holds(t, p)` says that the objects of `t` have
  exactly the fields of `t`, and that every child names its holder as parent; `Erase` forgets the
  identities. Reading, writing, copying, indenting and rewriting are all stated through them.
- The XML decoder the reader relies on is a grammar of XML 1.0 (sections 2.4 to 2.8, 2.11, 3.1, 4.1 and
  4.6) in `XmlDecoder`; the token loop on top of it is the repository's own and is modelled as written.
- A document that a text can be read into is *readable*. `Normalize` is what it comes back as when it is
  written and read: line ends fixed, neighbouring text put together, empty text gone. A *legal* document
  is a readable one without carriage returns, empty text and neighbouring text tokens.
- What the functions on values mean is stated again without them, in terms of names, attributes,
  characters, places and outcomes: `PathFilters`, `PathRefusals`, `XmlWriting`, `XmlFlags`, `Layout`,
  `SagaOutcomes`. `ShardSequential` ties the step machine of concurrent calls to the service.
- Remote calls, the database and the clock are arguments: an outcome record says how each call ends.
  `Fate.Lost` is a call that takes effect although the caller sees an error, `Fetch.Rows(n)` a query
  whose rows stop arriving after `n`. Theorems about runs quantify over all outcome records.
- `Engine.Removal` lists name the shard that was asked, so a stale shard list or a wrong shard are
  possible outcomes, not assumptions.

Where the code does less than it says, the model follows the code, and a lemma names the exact
condition under which the documented behaviour is met:

- A child filter keeps an element once per matching child. `KeepOnce` is an automaton over the filters
  of a segment. For every selector but the descendants it decides whether the repetitions can ever be
  seen (`KeepOnceExact`); for the descendants it is sufficient and not necessary (`DescendantsNeedLess`).
- `a[` makes the compiler index an empty string: `CompilePanicsExactly`, `CompileIsGuarded`.
- A carriage return from a character reference and text beside a CDATA section do not survive being
  written and read again: `ReferenceIsNotKept`, `SectionIsMerged`. `ReadWriteReadExactly` says which
  documents do.
- `InsertChild` loses the last child exactly when the place of insertion is found.
- `SetText` keeps the whitespace flag of the text it replaces, and a later `Indent` strips the text exactly
  when it was set: `SetTextThenIndent`.
- `Document.Copy` leaves the children's parent at an intermediate element.
- `RemoveShard` touches no cache key, and an invalidation may miss the second layer or come before a call
  stores what it read: `RemovalIsTransparentExactly`, `FailedInvalidationExactly`,
  `InvalidatedIsFreshExactly`. Concurrent calls for a user agree exactly in fresh states
  (`AgreementIsFreshness`). `Invalidate` takes no lock: `InvalidateBetweenHalves`.
- The administrator's sweep over all shards can stop halfway: `SweepInStepExactly`, `SweepStopsHalfway`.
  A deletion on a shard that does not hold the deployment reports success: `WrongShardOrphans`.
- When the relation query is refused, `GetRelations` iterates rows that are nil: FindUnlinkedVid and
  FindUnlinkedPid panic instead of returning an error (`Relation.GetRelations` gives None there).
- Result sets are iterated without asking why they ended. A lookup cut short leads to two rows for one
  virtual id exactly when `Doubles` holds; a relation list cut short makes the clean-up name linked
  deployments exactly when `NamesLinkedExactly` says so.

## Model

| member | source | states |
|---|---|---|
| Fifos.Fifo.Len | etree/helpers.go:73-78 | The two-case length is the number of queued values, through every wrap-around. |
| Fifos.Fifo.Grow | etree/helpers.go:80-94 | Growing keeps the queued sequence; a full buffer is never taken for an empty one. |
| Fifos.Fifo.Add | etree/helpers.go:54-62 | The queue gets the value at its end, growing when needed. |
| Fifos.Fifo.Remove | etree/helpers.go:64-71 | The oldest value leaves, the rest stays in order. |
| PathEngine.Pather.Traverse | etree/path.go:167-174 | For every finite tree and path the traversal ends, and the results are the old results and the meaning of each group, de-duplicated by first occurrence, in that order. |
| PathEngine.Pather.RunGroup | etree/path.go:168-172 | Draining the queue for one group records exactly the group's recursive meaning. |
| PathEngine.Pather.Eval | etree/path.go:178-195 | One evaluation records the candidates of a last segment, or queues them with the remaining segments; the result map always agrees with the results. |
| PathEngine.Pather.FilterPos | etree/path.go:393-404 | The position filter keeps the one candidate at the index, from either end, and empties the scratch buffer. |
| PathEngine.Pather.PassByAttr | etree/path.go:417-427 | An attribute filter passes an element at most once. |
| PathEngine.Pather.PassByChild | etree/path.go:463-499 | A child filter passes an element once for every matching child. |
| PathEngine.Pather.ApplyFilter | etree/path.go:393-499 | Scratch is empty before and after every filter, and the candidates become what the filter means. |
| PathEngine.Pather.ApplySelector | etree/path.go:322-381 | Each selector appends exactly the elements it means. |
| PathEngine.ListDescendants | etree/path.go:351-362 | The queue-driven selector lists the levels of the tree below the start element, top down. |
| PathEngine.FindElements | etree/etree.go:499-507 | A compiled query returns the query's meaning on the whole document. |
| PathQuery.FindElements | etree/etree.go:497-507 | From the path text on: every path that compiles is answered with its meaning, each element once; one that is refused or panics in the compiler makes the query panic. |
| Basics.DedupOrder | etree/path.go:183-189 | The results stand in the order of their first appearance among the candidates recorded. |
| PathModel.QueryIsSet | etree/path.go:137-195 | A query returns each once, and exactly, the elements that some group of the path means. |
| PathModel.QueueListsLevels | etree/path.go:351-362 | First-in-first-out order over a tree is level order. |
| PathModel.TaggedKidsExact | etree/path.go:366-381 | The tag selector keeps exactly the matching children. |
| PathFilters.SelectExactly | etree/path.go:29-32 | `.` selects the element, `..` the parent if there is one, `*` the children, a tag the children of that name, in the namespace if one is given. |
| PathFilters.HasAttrExactly | etree/path.go:417-427 | `[@key]` keeps, in order and once each, exactly the candidates with an attribute of that name. |
| PathFilters.AttrValExactly | etree/path.go:440-450 | `[@key='val']` keeps, in order and once each, exactly the candidates with an attribute of that name and that value. |
| PathFilters.HasChildExactly | etree/path.go:463-473 | `[tag]` keeps a candidate once for each of its children of that name. |
| PathFilters.ChildTextExactly | etree/path.go:487-499 | `[tag='text']` keeps a candidate once for each of its children of that name and that text. |
| PathFilters.PosExactly | etree/path.go:393-404 | `[#]` keeps the candidate with so many others before it, a negative one from the end, and none beyond either end. |
| PathFilters.FilterExactly | etree/path.go:34-39 | A filter that is no position keeps exactly the candidates with the attribute, value, child or text it names. |
| PathFilters.StarExactly | etree/path.go:34-39 | From the path text on: `*[filter]` is answered with exactly the children of the start element that have what the filter names. |
| PathFilters.StarAttrValExactly | etree/path.go:36 | `*[@key='val']` is answered with exactly the children in which some attribute of that key has that value. |
| Descendants.DescendantsExact | etree/path.go:347-362 | The descendant selector lists the start element and every element below it, each exactly once. |
| Descendants.BreadthFirst | etree/path.go:351-362 | No element is listed before an element of a higher level. |
| Descendants.DeepTagExact | etree/path.go:32-33 | `//tag` finds exactly the matching elements that are children of the start element or of an element below it. |
| Descendants.DeepTagList | etree/path.go:347-381 | `//tag` answers with the matching elements in level order, so the order of the answer is that of the document, level by level. |
| KeepOnce.KeepOnceSound | etree/path.go:463-499 | When the automaton ends harmlessly, the filters as coded and as documented leave the same elements, up to repetition. |
| KeepOnce.QueryIsDocumented | etree/path.go:24-40 | A path whose segments are all harmless answers every query as documented. |
| KeepOnce.NoPositionBehindChild | etree/path.go:34-40 | Segments without a position filter behind a child filter are harmless. |
| KeepOnceNeeded.KeepOnceExact | etree/path.go:322-499 | For every selector but the descendants, repeated candidates are invisible in every tree if and only if the automaton ends harmlessly; for the descendants, if it does. |
| KeepOnceNeeded.SecondAfterTag | etree/path.go:34-38 | `[tag][2]` can pick a repetition; `[tag][1]` and `[tag][-1]` never do. |
| KeepOnceNeeded.LastHasNoKids | etree/path.go:351-362 | The last element of the descendant selector never has children. |
| KeepOnceNeeded.DescendantsNeedLess | etree/path.go:351-404 | So for the descendants a segment that the automaton calls harmful can be harmless. |
| PathCompiler.Compiler.RunFilter | etree/path.go:280-317 | The filter parser as a step on the compiler's error field agrees with the parse function. |
| PathCompiler.Compiler.RunSegment | etree/path.go:246-261 | The segment loop, with its panic on an empty piece, agrees with the parse function. |
| PathCompiler.Compiler.RunGroup | etree/path.go:219-243 | So does the group loop, with the completion of `//` and the refusal of absolute paths. |
| PathCompiler.Compiler.RunPath | etree/path.go:205-214 | The compiler accepts, refuses or panics exactly as the parse function says. |
| PathRoundTrip.PathRoundTrips | etree/path.go:205-317 | Compiling the printed form of a path in normal form gives back the same groups, selectors and filters. |
| PathRoundTrip.PrintIsInjective | etree/path.go:205-317 | Different normal paths are printed differently. |
| PathRoundTrip.NameRoundTrip | etree/helpers.go:154-160 | Splitting a printed name at its first colon gives back namespace and key. |
| PathRoundTrip.FilterRoundTrip | etree/path.go:280-317 | Every filter in normal form is parsed back from its text. |
| PathRefusals.FilterRefusedExactly | etree/path.go:280-299 | A filter is refused if and only if it is empty, or its first `='` is not closed by the next quote as its last character. |
| PathRefusals.NumbersParse | etree/path.go:306-313 | `[n]` is the n-th candidate, `[-n]` the n-th from the end, `[0]` and `[-]` the first; beyond 64 bits the largest or smallest number counts. |
| PathRefusals.SegmentParsesExactly | etree/path.go:246-261 | A segment parses if and only if each opening bracket is followed by a filter that is not refused and by its closing bracket. |
| PathRefusals.CompletedExactly | etree/path.go:220-232 | A group starting with `//` gets a dot in front, one ending with it a star behind; then it is absolute exactly when it started with one slash. |
| PathRefusals.CompilesExactly | etree/path.go:205-261 | A path compiles if and only if no group is absolute and every opening bracket opens a closed filter that is not refused. |
| PathRoundTrip.SegmentPanicsExactly | etree/path.go:252-259 | A segment panics if and only if a piece behind an opening bracket is empty and every earlier one is closed. |
| PathRoundTrip.CompileIsGuarded | etree/path.go:205-261 | No path panics in which every opening bracket is followed, in its segment, by a character other than an opening bracket. |
| PathRoundTrip.CompilePanicsExactly | etree/path.go:205-261 | The compiler panics if and only if the first group that does not parse is not absolute, and its first segment that does not parse has an empty piece behind an opening bracket with every earlier such piece closed. |
| PathRoundTrip.GroupPanicsExactly | etree/path.go:219-243 | The same for one group. |
| PathRoundTrip.EveryPieceParses | etree/path.go:207-240 | The loops get as far as a piece only if every piece before it parses. |
| PathRoundTrip.OpenBracketPanicsExactly | etree/path.go:252-259 | A segment that ends in an opening bracket panics if and only if no earlier piece stops the loop. |
| PathRoundTrip.OpenBracketPanics | etree/path.go:252-254 | The path `a[` panics instead of being refused. |
| PathRoundTrip.CompiledHasSegments | etree/path.go:234-242 | No group of a compiled path is empty, so that every compiled path can be evaluated. |
| PathRoundTrip.DeepTagCompiles | etree/path.go:219-226 | `//name` compiles to the descendant selector and the tag selector. |
| XmlReader.WriteReadRoundTrip | etree/etree.go:377-415 | Writing a legal document under any setting and reading it gives the same document. |
| XmlReader.WriteReadNormalizes | etree/etree.go:377-415 | Writing any readable document under any setting and reading the text gives its normal form. |
| XmlReader.RoundTripExactly | etree/etree.go:377-415 | A readable document comes back as it is if and only if it is legal. |
| XmlNormal.NormalExactly | etree/etree.go:377-415 | The normal form is legal, and exactly the legal documents are their own normal form. |
| XmlReader.WriteIsInjective | etree/etree.go:606-642 | No two legal documents are written alike, not even under different settings. |
| XmlReader.InvalidXmlExactly | etree/etree.go:389-390 | The stack error is reported if and only if, behind some prefix of the tokens with more closing than opening tags, anything but the end of input follows. |
| XmlReader.RefusedExactly | etree/etree.go:382-415 | The same at the level of tokens, from any stack. |
| XmlLexing.LexWritten | etree/etree.go:684-720 | The text of a readable document, with any of the escaping modes, is decoded into exactly the tokens of its normal form. |
| XmlLexing.ScanWrittenText | etree/etree.go:768-776 | Escaped text up to the next tag is decoded to the text with its line ends fixed. |
| XmlLexing.ScanWrittenAttr | etree/etree.go:705-720 | A written attribute is decoded to itself, line ends in its value fixed, under both quoting modes. |
| XmlLexing.ScanWrittenComment | etree/etree.go:820-824 | A written comment is decoded to itself. |
| XmlLexing.ScanWrittenInst | etree/etree.go:922-930 | A written processing instruction is decoded to itself; an XML declaration if its version and encoding are accepted. |
| XmlLexing.ScanWrittenDirective | etree/etree.go:870-874 | A written directive is decoded to itself. |
| XmlModel.PutUniqueAttrs | etree/etree.go:658-670 | Replaying attributes with distinct keys keeps them all, in order. |
| XmlModel.PutKeepsUnique | etree/etree.go:658-670 | Creating an attribute never makes a key occur twice. |
| XmlWriting.TextReferencesExactly | etree/etree.go:768-776 | Text is written with exactly one reference for each &, < and > and, without CanonicalText, for each quote and apostrophe; none of those stands for itself. |
| XmlWriting.ValueReferencesExactly | etree/etree.go:705-720 | Attribute values are written with exactly one reference for each &, < and quote and, without CanonicalAttrVal, for each > and apostrophe; none of those stands for itself. |
| XmlWriting.EndTagsExactly | etree/etree.go:618-642 | An element without children closes itself unless CanonicalEndTags is set; every other one ends in its end tag. |
| XmlReferences.NumericIsRead | etree/etree.go:379-388 | In text and in attribute values, a character is read from its decimal and from either hexadecimal reference. |
| XmlStable.LexIsReadable | etree/etree.go:377-415 | Whatever text is decoded, accepted or not, every token can be written and read again. |
| XmlStable.ReadIsReadable | etree/etree.go:377-415 | Every document that is built from any text is readable. |
| XmlStable.ReadWriteReadExactly | etree/etree.go:377-415 | For every text and setting: writing what was read and reading again gives the normal form; it is the same document if and only if that is legal. |
| XmlStable.SecondWriteIsStable | etree/etree.go:377-415 | After one round through text nothing changes any more. |
| XmlStable.DirectiveSettles | etree/etree.go:409-410 | A directive that was read, comments inside it replaced, is read again as it is. |
| XmlFlags.FlaggedExactly | etree/helpers.go:130-139 | Of whatever text is decoded, a text token is flagged as whitespace if and only if all its characters are blanks, tabs, newlines and carriage returns. |
| XmlFlags.ReadFlagsAreTrue | etree/etree.go:404-406 | The same of every text in every document that is read. |
| XmlFlags.IndentKeepsWhatIsVisible | etree/etree.go:551-574 | Indenting whatever was read, in any style, keeps all its character data that is not blank, in order. |
| XmlDepartures.ReferenceIsNotKept | etree/etree.go:404-406 | `<a>x&#13;y</a>` is read with a carriage return and comes back with a newline. |
| XmlDepartures.SectionIsMerged | etree/etree.go:404-406 | `<a>x<![CDATA[y]]></a>` is read as two texts and comes back as one. |
| HeapReader.ReadFrom | etree/etree.go:377-415 | The stack loop over objects builds a tree that has the value, or ends with the error, of the recursive reading; every child names its holder. |
| HeapReader.HandleToken | etree/etree.go:393-413 | One token on a stack that is not empty is one step of the value model. |
| HeapReader.CreateAttr | etree/etree.go:658-670 | The search loop replaces the attribute with that key or appends one. |
| HeapReader.RawToken | etree/etree.go:383-388 | Tokens are delivered in order, those of a self-closing tag as two. |
| HeapWriter.WriteElement | etree/etree.go:606-642 | An element writes exactly the text of the tree its objects hold. |
| HeapWriter.WriteAttrsTo | etree/etree.go:614-617 | The attributes are written in order, each behind a blank. |
| HeapCopy.Dup | etree/etree.go:577-592 | The duplicate is made of new objects, has the same value, and every child's parent is its copied holder. |
| HeapCopy.Copy | etree/etree.go:292-295 | Element.Copy shares no object with the original and has no parent. |
| HeapCopy.CopyDocument | etree/etree.go:133-135 | The copied document's children name another element than the copy as their parent. |
| HeapCopy.CopyIsIndependent | etree/etree.go:289-295 | Whatever is later changed in the copy leaves the original as it was. |
| ChildLists.InsertChild | etree/etree.go:345-359 | The exact list of children after an insertion, when the token comes from another element, from this one, or from none; another holder loses it. |
| ChildLists.RemoveChild | etree/etree.go:364-373 | The first occurrence leaves, and the token has no parent any more. |
| ChildLists.InsertLosesLastExactly | etree/etree.go:341-359 | The list is the documented one, without its last child exactly when the place of insertion is found. |
| ChildLists.InsertIsDocumentedExactly | etree/etree.go:341-344 | InsertChild does what it says if and only if the token to insert before is no child. |
| Indent.IndentIsIdempotent | etree/etree.go:247-264 | Indenting an indented tree again changes nothing. |
| Indent.LastIndentWins | etree/etree.go:247-264 | Only the last indentation counts, whatever the widths. |
| Indent.IndentKeepsCore | etree/etree.go:511-574 | Every token that is not indentation stays, in the same order under the same parent, at every depth. |
| Indent.IndentInsertsOnly | etree/etree.go:528-549 | What is inserted is only indentation of the depth it stands at. |
| Layout.LeftAsItIsExactly | etree/etree.go:509-549 | Indent leaves a tree as it is if and only if, at every depth, indentation stands before each piece of markup but the first at root depth, behind markup at the end, and nowhere else. |
| Layout.IndentPlaces | etree/etree.go:509-549 | And whatever tree is indented, that is where its indentation then stands. |
| Indent.CrIndentExact | etree/helpers.go:170-179 | A newline and exactly n blanks, also beyond the length of the source string. |
| Indent.IndentTextExact | etree/etree.go:247-264 | The indentation at a depth is a newline and depth times the width in blanks, or depth tabs. |
| Indent.TextSurvivesExactly | etree/etree.go:511-574 | For every element, style and depth: after SetText, Indent puts the text before what it makes of the other children, unless the text replaced was flagged; then the text is gone. |
| HeapIndent.IndentElement | etree/etree.go:511-548 | The recursive change of the objects gives exactly the indented tree, keeps the identity of every token kept, and drops every flagged one. |
| HeapIndent.StripIndent | etree/etree.go:551-574 | Exactly the flagged text tokens leave. |
| HeapStore.StoreIsForest | etree/etree.go:645-647 | A tree of objects pictures a proper forest, so every query on it terminates. |
| HeapStore.StoreIsPicture | etree/etree.go:299-307 | The picture agrees with the objects' names, attributes, children, text and parents. |
| HeapStore.DeepTagFinds | etree/path.go:32-33 | `//tag` on a tree of objects finds exactly the elements below the root with that name. |
| HeapStore.DeepTagOrder | etree/path.go:347-381 | On a tree of objects `//tag` finds them level by level, in the order of the document. |
| HeapText.SetText | etree/etree.go:310-320 | Text() then gives the text set: the leading text is replaced and keeps its whitespace flag, otherwise a new text comes first. |
| HeapText.SetTextThenIndent | etree/etree.go:310-320 | SetText and then Indent on any element: the token that holds the text is still in the tree if and only if it did not stand for indentation before. |
| ProcessScripts.FindByName | lib/controller/bpmn.go:44-47 | The compiled query run by the evaluator returns each element of the name once, and no other. |
| ProcessScripts.FindInOrder | lib/controller/bpmn.go:66 | The query returns them in document order, level by level. |
| ProcessScripts.SecureDocument | lib/controller/bpmn.go:44-49 | Both loops together secure every script of the document, nested ones included. |
| ProcessScripts.SecureProcessScripts | lib/controller/bpmn.go:30-52 | From text to text: reading, both queries, the changes and writing give the text of the secured tree, or an error exactly when the text is not read. |
| ProcessScripts.SecuredIsReadBack | lib/controller/bpmn.go:30-52 | For every text that is read, the text produced is read again as the normal form of the secured document; that is the secured document if and only if it is legal, as it is when the document read was. |
| Scripts.ScriptIsPrefixed | lib/controller/bpmn.go:42-49 | The character data of a script element is the prefix, exactly once, and its old value; of any other element its old value; names and attributes stay. |
| Scripts.SecuredKids | lib/controller/bpmn.go:44-49 | All children of every element stay, at their places; only in a script without leading text one text comes first. |
| Scripts.SecureAllFits | lib/controller/bpmn.go:44-51 | Securing keeps a document readable, and legal if it was. |
| ProcessId.SetProcessId | lib/controller/bpmn.go:54-78 | The document is written with the objects, names, text and attributes it was read with, except that the first id attribute of each `bpmn:process` element has a new value; the values are the prefix and the normalized id, and behind the first process, in document order, its number. |
| ProcessId.PrepareDiagram | lib/controller/controller.go:51-67 | Deploy's two rewrites in sequence: the second never fails, as it reads the normal form of the secured document, and gives that document with new ids. |
| ProcessId.SetIdExactly | etree/etree.go:417-427 | Setting the id changes the value of the first attribute with key id and no other attribute. |
| ProcessId.WithIdsExactly | lib/controller/bpmn.go:66-74 | The tree with new ids is the tree read, with changed values of exactly those attributes, at every depth. |
| ProcessId.NormalizeExactly | lib/controller/bpmn.go:65 | The normalized id has an underscore for each minus, colon and number sign, and every other character as it was. |
| ProcessId.IdsAreDistinct | lib/controller/bpmn.go:66-74 | The ids given to different process elements differ. |
| Cache.LayeredCache.Get | lib/shards/cache/cache.go:85-110 | The first layer, then the second; a hit in the second refills the first. |
| Cache.LayeredCache.Set | lib/shards/cache/cache.go:112-126 | The value goes to both layers with their lifetimes. |
| Cache.LayeredCache.Invalidate | lib/shards/cache/cache.go:77-83 | The key leaves the first layer, and the second when its server is reached; otherwise it stays there and an error is returned. |
| Cache.LayeredCache.Use | lib/shards/cache/cache.go:59-75 | A cached answer is served; otherwise the fetched one is served and stored. |
| Cache.FoundIsYoung | lib/shards/cache/cache.go:85-126 | In every run, with any evictions, a value found was put there, by Set or by a Use that missed, less than both lifetimes (one without a second layer) ago, and not invalidated since by a call that reached the second layer. |
| Cache.StoredIsFound | lib/shards/cache/cache.go:59-75 | In every run: what a Set, or a Use that missed, puts under a key is found until the first lifetime is over, short of an eviction from the first layer, an invalidation, or another Set; a second Use answers it whatever its getter says. |
| Cache.StoredIsFoundBehind | lib/shards/cache/cache.go:85-126 | With a second layer it is found until the second lifetime is over, whatever the first layer evicts and whatever invalidation misses the server. |
| Cache.RefillIsFresh | lib/shards/cache/cache.go:103-107 | A hit in the second layer is served for a whole new lifetime of the first. |
| Cache.SpanIsTight | lib/shards/cache/cache.go:85-110 | The bound is reached up to the two seconds the clock counts in. |
| Cache.InvalidateBetweenHalves | lib/shards/cache/cache.go:77-110 | An invalidation between the halves of a lookup is undone exactly when the second layer had the key. |
| Shards.SelectShard | lib/shards/shards.go:130-146 | Whatever the iteration order, the shard picked has the fewest users; an error only without shards or for an empty address. |
| Shards.Service.GetShardForUser | lib/shards/shards.go:45-64 | The cached lookup returns the user's row. |
| Shards.Service.EnsureShardForUser | lib/shards/shards.go:89-117 | An assigned user keeps the shard; a new one gets a least loaded shard and a row. |
| Shards.Service.SetShardForUser | lib/shards/shards.go:66-87 | The row is replaced and the key invalidated, with an error if and only if there is a second layer and it is not reached or has no unexpired entry; an unknown shard is an error and changes nothing. |
| Shards.Service.EnsureShard | lib/shards/shards.go:119-122 | The shard is added, assignments stay, and the cache still agrees with them. |
| Shards.Service.RemoveShard | lib/shards/shards.go:188-203 | The shard and its assignments go; the keys of the tables hold, the cache is left alone. |
| Shards.CacheIsTransparent | lib/shards/shards.go:45-122 | In every run from empty tables, with expiry and eviction and every invalidation reaching its layers, each lookup through the cache equals the user's current row. |
| Shards.FailedInvalidationExactly | lib/shards/cache/cache.go:77-83 | After an assignment whose invalidation misses the second layer, lookups stay right if and only if that layer has no other value for the user. |
| Shards.RemovalIsTransparentExactly | lib/shards/shards.go:188-203 | After a shard is removed lookups stay right if and only if no user of it is served from the cache at that time. |
| ShardRuns.AssignKeepsBalance | lib/shards/shards.go:130-146 | Assigning to a least loaded shard does not widen the gap beyond the larger of its size and 1. |
| ShardRuns.LoadsAddUp | lib/shards/sql.go:24-26 | The counts per shard sum up to the number of assigned users. |
| ShardRuns.RunKeepsBalance | lib/shards/shards.go:89-117 | Over every run with fixed shards the gap never exceeds the larger of its first value and 1, and the counts add up. |
| ShardTransactions.StepIsSafe | lib/shards/sql.go:3-10 | Every step the keys of the tables allow keeps pending rows unique and on existing shards. |
| ShardTransactions.RunIsSafe | lib/shards/shards.go:89-117 | Under every interleaving the row of a user, which the mapping makes one, references an existing shard, and so do the uncommitted rows, at most one for a user and none beside a committed one. |
| ShardTransactions.FreshStays | lib/shards/shards.go:96-116 | Where no unexpired entry of a user, nor a value on its way into one, differs from the row, this stays so until the user is reassigned or a shard removed, and every answer is the row. |
| ShardTransactions.CallsAgree | lib/shards/shards.go:89-117 | From such a state two successful calls for the user return the same shard, however all calls interleave. |
| ShardTransactions.AnswersAgreeExactly | lib/shards/shards.go:89-117 | After an answer that was the row, a later one agrees if and only if it is the row as well. |
| ShardTransactions.AgreementIsFreshness | lib/shards/shards.go:89-117 | Short of a reassignment or removal any two answers for a user agree if and only if no unexpired entry, and no value on its way into one, differs from the row. |
| ShardTransactions.RemovalMakesCallsDisagree | lib/shards/shards.go:188-203 | Removing the shard that an unexpired entry names leads to calls that disagree without any further disturbance. |
| ShardTransactions.ExpiryChangesTheAnswer | lib/shards/shards.go:96-116 | The run: with a lifetime of 60 seconds and a removed shard still cached, one call is answered the removed shard, and a later one another. |
| ShardTransactions.InvalidatedIsFreshExactly | lib/shards/shards.go:82-86 | An invalidation that reaches its layers makes a user fresh if and only if no call is about to store another value than the row. |
| ShardSequential.LookupAlone | lib/shards/cache/cache.go:59-110 | A lookup whose steps no other call interrupts answers as GetShardForUser does and leaves the same tables and cache. |
| ShardSequential.EnsureAlone | lib/shards/shards.go:89-117 | An uninterrupted assignment of a user without a shard does what EnsureShardForUser does. |
| ShardSequential.OthersAlone | lib/shards/shards.go:66-122 | A reassignment with its invalidation, and every other step, is the service's own operation. |
| VidRelation.Relation.SaveVidRelation | lib/vid/vid.go:35-38 | One row is added, unless the insert fails without effect. |
| VidRelation.Relation.VidExists | lib/vid/vid.go:40-51 | Counting tells whether the virtual id has a row. |
| VidRelation.Relation.RemoveVidRelation | lib/vid/vid.go:54-70 | The open transaction holds the table without the rows that share either id. |
| VidRelation.Relation.GetDeploymentId | lib/vid/vid.go:73-102 | The first of the rows that arrive, an error, or nothing. |
| VidRelation.Relation.GetVirtualId | lib/vid/vid.go:105-120 | The same from the other side. |
| VidRelation.Relation.GetRelations | lib/vid/vid.go:149-166 | The two maps of the rows that arrive. |
| VidRelation.LookupsAreInverse | lib/vid/vid.go:73-120 | On a one-to-one table the two lookups are inverse to each other. |
| VidRelation.RelationsInvert | lib/vid/vid.go:149-166 | On a one-to-one table the two maps invert each other, also when the rows stop arriving early. |
| VidRelation.MapsAreRows | lib/vid/vid.go:149-166 | On a one-to-one table each map holds exactly the rows. |
| VidRelation.WithoutRows | lib/vid/vid.go:59-64 | The two deletions take exactly the rows that share an id, and keep the table one-to-one. |
| VidRelation.InsertIsBijectiveExactly | lib/vid/database.go:25-32 | Without a unique constraint, an insert keeps the table one-to-one if and only if both ids are new. |
| Engine.Camunda.DeployProcess | lib/camunda/camunda.go:520-575 | The id of the deployment, of its placeholder after an engine exception, or an error; and what is left in the engine. |
| Engine.Camunda.RemoveProcessForShard | lib/camunda/camunda.go:586-610 | Counting first, then deleting: the result and the deployments left. |
| Engine.Camunda.RemoveProcess | lib/camunda/camunda.go:578-584 | The same on the user's shard, if it is known. |
| Engine.Camunda.RemoveProcessFromAllShards | lib/camunda/camunda.go:612-624 | The same on one shard after the other, up to the first error. |
| Engine.EachExactly | lib/camunda/camunda.go:586-624 | For a deployment on one shard: the sweep succeeds if and only if no step fails there, and takes the deployment away if and only if its shard is reached. |
| Saga.Controller.DeleteDeployment | lib/controller/controller.go:123-157 | State and result of the deletion for every pattern of outcomes, in the order of the code. |
| Saga.Controller.CleanupExistingDeployment | lib/controller/controller.go:192-201 | Nothing without a row, a deletion with one, an error where the count fails. |
| Saga.Controller.CreateDeployment | lib/controller/controller.go:77-120 | Creation, incident handlers and the row, with the compensation after each failure. |
| Saga.Controller.DeployProcess | lib/controller/controller.go:50-121 | State and status of Deploy for every pattern of outcomes. |
| Saga.Controller.DeleteDependents | lib/controller/controller.go:203-232 | The services are called for each definition until one fails. |
| SagaOutcomes.RefusedExactly | lib/controller/controller.go:50-70 | A message that lacks id, user or diagram, or whose diagram is not secured, stamped and valid, changes nothing; the status is 400 exactly for a missing part of a secured message and for an invalid diagram. |
| SagaOutcomes.DeployedExactly | lib/controller/controller.go:50-121 | Deploy answers success if and only if the message is complete, the clean-up worked, the engine gave an id, the handlers were set, and the row was saved. |
| SagaOutcomes.DeployChangesExactly | lib/controller/controller.go:72-121 | Deploy is the clean-up of an existing deployment and then, only if that succeeded, the creation. |
| SagaOutcomes.CreateChangesExactly | lib/controller/controller.go:77-120 | Row and deployment after a creation: the row is there exactly when the insert was reached and took effect, the deployment is gone exactly when a step failed and the compensation reached it. |
| SagaOutcomes.NamelessChangesExactly | lib/controller/controller.go:77-87 | Without an id of the deployment nothing is recorded, and what the requests made stays. |
| SagaOutcomes.NewIdExactly | lib/camunda/camunda.go:520-558 | The id is that of the first answer, or of the second after an engine exception; an empty one is an error. |
| SagaOutcomes.DeletedExactly | lib/controller/controller.go:123-157 | A deletion succeeds if and only if the lookup was answered and, where it delivered a deployment, dependents, transaction, engines and commit all went well. |
| SagaOutcomes.DeleteChangesExactly | lib/controller/controller.go:123-157 | A deletion changes nothing before the engines are asked; then exactly the rows that share an id are gone if and only if all requests succeeded and the commit took effect. |
| SagaOutcomes.RemovalExactly | lib/camunda/camunda.go:586-610 | A removal fails exactly when the count fails or the deployment is there and its deletion is not confirmed; no other deployment is touched. |
| SagaRuns.DeployBijectiveExactly | lib/controller/controller.go:50-121 | With a fresh id and any failures, Deploy keeps VidRelation one-to-one if and only if not an existing row was overlooked by a lookup cut short and a second one saved. |
| SagaRuns.RunKeepsBijection | lib/controller/controller.go:50-157 | In every run with any remote, compensation and commit failures, VidRelation stays a partial bijection. |
| SagaRuns.OthersUntouched | lib/controller/controller.go:50-157 | Whatever fails, a call leaves the rows of other virtual ids alone. |
| SagaRuns.DeleteMatchesExactly | lib/controller/controller.go:123-157 | For all outcomes: a deletion keeps table and engines in step if and only if row and deployment go together. |
| SagaRuns.CreateMatchesExactly | lib/controller/controller.go:77-120 | For all outcomes: a creation keeps them in step if and only if what was made stays exactly when it was recorded, on the right shard. |
| SagaRuns.SweepInStepExactly | lib/camunda/camunda.go:612-624 | A sweep is in step if and only if it meets no error and lists the shard, or fails before the shard is cleared. |
| SagaRuns.RunStaysInStep | lib/controller/controller.go:50-157 | After every call of an orderly run, successful or not, the deployment ids in the table are exactly the deployments alive. |
| SagaRuns.DeployedIsFound | lib/controller/controller.go:111-120 | After a successful Deploy the lookup gives the new deployment, and it is alive. |
| SagaRuns.FailedDeleteChangesNothing | lib/controller/controller.go:146-156 | An orderly deletion that reports an error changed nothing; one that reports success left no row. |
| SagaRuns.CutShortDoubles | lib/vid/vid.go:91-102 | A run in which a lookup cut short leads to two rows for one virtual id. |
| SagaRuns.SweepStopsHalfway | lib/controller/controller.go:149-152 | A sweep that clears the shard and then fails rolls back the row of a deployment that is gone. |
| SagaRuns.WrongShardOrphans | lib/camunda/camunda.go:591-593 | Deleting on a shard without the deployment reports success, and the deployment stays. |
| Cleanup.FindUnlinkedVid | lib/cleanup/unlinkedvid.go:38-70 | Lists each virtual id whose deployment is on no shard exactly once when the table is one-to-one; an error without shards or an answer. |
| Cleanup.FindUnlinkedPid | lib/cleanup/unlinkedpid.go:51-83 | Lists for each shard exactly its deployments without a row that are older than the buffer, in order. |
| Cleanup.StaleIdsMember | lib/cleanup/unlinkedpid.go:70-80 | A deployment is listed if and only if it is unlinked, dated and older than the buffer. |
| Cleanup.RemovePid | lib/cleanup/removepid.go:27-37 | Removes nothing but what is listed, and on success all of it, whatever the order of the map. |
| Cleanup.RemoveVid | lib/cleanup/removevid.go:24-33 | One administrator's deletion after the other, up to the first error. |
| Cleanup.SweepGoesOn | lib/cleanup/removevid.go:24-33 | Each further virtual id is deleted if and only if the sweep succeeded so far, which it then does if and only if this deletion does. |
| Cleanup.RemoveVidsExactly | lib/cleanup/removevid.go:24-33 | When nothing fails, removing dangling virtual ids takes exactly their rows and no deployment. |
| Cleanup.CleanupRestores | lib/cleanup/removepid.go:27-37 | In a quiet system with buffer 0, removing all that is listed restores exact correspondence and removes nothing linked. |
| Cleanup.NamesLinkedExactly | lib/vid/vid.go:155-165 | A relation list cut short makes the clean-up name a linked deployment if and only if a row that did not arrive has an old deployment. |

## Left out

- The HTTP endpoints, metrics, authentication, configuration, command line and notification clients: plumbing around the modelled calls.
- The engine queries of `lib/camunda` besides deploying and removing, and SetVid: single requests without state.
- What the incident and process-io services store; their calls are outcomes of the saga.
- The connection between Deploy's XML checks and the XML model: Deploy takes their verdicts as outcomes; the two rewrites in sequence are ProcessId.PrepareDiagram, and `xml.Unmarshal` in validateXml is not part of this model.
- The Unicode name tables of XML: every character from U+0080 on counts as a name character.
- Bytes and UTF-8: strings are sequences of characters; the byte counts returned by reading and writing are not modelled.
- Comment, Directive, ProcInst and CharData objects are one class with a value; CData tokens (`etree/cdata.go`) are never produced by the reader.
- The writer's buffer is a string handed through the calls, as no property depends on its identity.
- Slices are sequences: sharing of a backing array between two slices is not modelled.
- Partial results of the compiler behind an error (nil filters in a group that is thrown away).
- Integers are unbounded, except for the position of `[#]`, whose parsing saturates at the 64-bit limits, and the counter limit in selectShard.
- JSON and SQL drivers and the two cache stores: values come back as stored, transactions are atomic, entries expire or are evicted.
- A failing read or write of the second cache layer: it acts like a miss, or leaves what was there.
- Failures of the database in `lib/shards` below the level of a refused step, and the cached list of shards behind GetShards, whose staleness is covered by arbitrary sweep lists in the saga.
- The order in which a query returns rows: VidRelation is read in the order of insertion, which makes no difference where it is one-to-one.
- FindUnlinkedPid: the clock is read once for all deployments, because a quiet system is what the property is about.
- ProcessScripts.SecuredIsReadBack: equal up to the whitespace flags of changed text, because SetText keeps a stale flag that reading computes anew.
- SagaRuns.RunStaysInStep: assumes that failing calls have no effect, that compensation and commit succeed, fresh ids, a fixed shard per virtual id and no sweep that stops halfway; the lemmas named `...MatchesExactly` say what happens otherwise.
- SagaRuns.RunKeepsBijection: assumes that no lookup in Deploy is cut short unnoticed; DeployBijectiveExactly shows that this is the only way to lose the property.
- Concurrent calls of Deploy and DeleteDeployment, which the code does not serialize either.

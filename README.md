# RIVL scene importer, modelled in Dafny

This project models the core of OSPRay's RIVL importer. The importer reads a
scene file in two parts. An XML-like document lists declarations, and a binary
file next to it holds the bulk arrays. The importer then builds a scene graph
from them.

- **What is modelled.** The model covers `parseBGFscene` and the two document
  checks of `importRIVL` that run before it. `parseBGFscene` walks the
  top-level declarations of a `BGFscene` element in order: `text`,
  `Texture2D`, `Material`, `Transform`, `Mesh`, `Group`, and unknown names.
- **Node table.** Every declaration except `text` appends one entry to a node
  table. Texture2D and unknown declarations append a NULL placeholder.
  References between declarations are table indices read from text with
  `atoi`/`atol`. Examples are a Transform's `child`, a Mesh's `materiallist`
  and a Group's body.
- **Root.** The last Mesh or Group declared becomes the World's root.
- **Failures.** Every way the source aborts an import, and the two kinds of
  undefined behaviour listed last below, is a `Failure` value:
  - a thrown `runtime_error`;
  - a `FATAL`;
  - an `assert`;
  - an `operator[]` on the node table with an index past its end, which is
    undefined behaviour in the source;
  - `atof`/`atol` handed the NULL that `strtok` returns when a param body
    has fewer tokens than its type reads (`MissingParamToken`), which is
    also undefined behaviour.

  The model makes each of them a Failure. An aborted import produces no World.
  Other undefined behaviour is not a Failure: `atoi`/`atol` overflow is given
  a value, and the NULL `FILE*` and -1 descriptor of the binary-file I/O are
  left out (see "## Left out").
- **Two layers.**
  - Module `Declarations` defines each builder as a function from the table
    before a declaration to the table after it.
  - Module `Importer` runs the same steps the way the source does. Its
    `ImportContext` class holds the node table as a field and runs
    index-driven loops. Every method is proved equal to its function.
- **Properties.** The property modules prove what the importer promises about
  those functions:
  - `Properties`, `DeclarationProperties`, `Growth`, `WellFormedness` and
    `ImportProperties`.
  - The proofs cover the alignment of declarations with table entries, the
    choice of root, parameter decoding, material lists, group children, the
    failure classes, and the arena invariant.
  - The arena invariant says every reference points to an earlier entry or
    to the entry itself, and material lists hold only Materials.

Modules, in dependency order:

- `Wrappers` holds Option and Result.
- `Xml` is the document model and the attribute scan ("the last attribute
  wins").
- `CText` models strtok, atoi/atol, `std::string::find`, and the size_t and
  int32 conversions.
- `SceneGraph` has the nodes, the table entries, the World, the failures, and
  the `Extends` and `WellFormed` predicates.
- `Declarations` has the builder functions.
- `Importer` has the imperative importer.
- `Growth`, `Properties`, `DeclarationProperties`, `WellFormedness` and
  `ImportProperties` hold the lemmas.

Behaviour of the code that is easy to miss. The model follows the code in each
case:

- **Transform.**
  - A Transform with no `child` attribute is accepted, and its child stays
    NULL.
  - A body with more than twelve numbers is accepted, because `sscanf` stops
    after twelve conversions.
  - The Transform is appended before its `child` attribute is resolved, so
    it may name itself.
- **Group.**
  - An in-range index of a NULL entry is accepted as a child.
  - An index out of range is not tolerated in the code: it indexes past the
    end of the `std::vector`. The model makes it a fatal `IndexOutOfRange`.
  - A Group may also name itself.
- **Material.** The `type` attribute is read into a local and never stored.
- **Root.** With no Mesh or Group, the World still receives one root: a NULL
  one.
- **Arrays.** `ofs="-1"` or `num="-1"` reads as `size_t(-1)`, the "not set"
  marker, so it fails like a missing attribute.

## Model

| member | source | states |
|---|---|---|
| Xml.ScanProp | apps/qtViewer/sg/importer/ImportRIVL.cpp:131-143 | the attribute loop ends with the value of the last attribute of that name, or none |
| Xml.LastValueWins | apps/qtViewer/sg/importer/ImportRIVL.cpp:131-143 | the scan finds nothing exactly when no attribute has the name, otherwise the last such attribute's value |
| Xml.LastValueAppend | apps/qtViewer/sg/importer/ImportRIVL.cpp:105-121 | one more attribute overwrites the value found so far when it has the name looked for, and leaves it otherwise |
| CText.Tokenize | apps/qtViewer/sg/importer/ImportRIVL.cpp:147-149 | the strtok loop over " \t\n\r" yields exactly the tokens of the body |
| CText.Tokens | apps/qtViewer/sg/importer/ImportRIVL.cpp:412 | every token is non-empty and free of delimiters |
| CText.TokensOfJoin | apps/qtViewer/sg/importer/ImportRIVL.cpp:439 | words written out with single spaces tokenize back to the same words |
| CText.AtoiOfDecimal | apps/qtViewer/sg/importer/ImportRIVL.cpp:413 | atoi reads a decimal rendering back to the number it renders |
| CText.AtoiOfNegDecimal | apps/qtViewer/sg/importer/ImportRIVL.cpp:315 | atol reads a minus sign and digits as the negated number |
| CText.AtoiGarbage | apps/qtViewer/sg/importer/ImportRIVL.cpp:269 | text with no digit after white space and a sign reads as 0 |
| CText.HasSubstring | apps/qtViewer/sg/importer/ImportRIVL.cpp:178 | `find("map_") != npos` holds exactly when the pattern occurs at some position |
| CText.AsSizeRange | apps/qtViewer/sg/importer/ImportRIVL.cpp:413 | the size_t conversion is within 0..2^64-1 and keeps values already in range |
| CText.AsSizeOfNegative | apps/qtViewer/sg/importer/ImportRIVL.cpp:308 | a negative value wraps to the top of the size_t range, so -1 becomes size_t(-1) |
| CText.ToInt32Range | apps/qtViewer/sg/importer/ImportRIVL.cpp:179 | the int32 cast stays within int32 and keeps values already in range |
| CText.ToInt32Wraps | apps/qtViewer/sg/importer/ImportRIVL.cpp:187 | a value just past int32 wraps to the negative end |
| CText.Atoi | apps/qtViewer/sg/importer/ImportRIVL.cpp:269 | atoi/atol: leading white space, an optional sign, the longest run of digits, 0 without digits (characterised by AtoiSkipsSpaces, AtoiReads, AtoiPrefix, AtoiOfDecimal, AtoiOfNegDecimal, AtoiGarbage) |
| CText.AtoiReads | apps/qtViewer/sg/importer/ImportRIVL.cpp:269 | white space, then an optional `+` or `-`, then the digits of n, then text that does not go on with a digit, reads as n, or -n after `-` |
| CText.AtoiPrefix | apps/qtViewer/sg/importer/ImportRIVL.cpp:413 | digits followed by a non-digit, such as "12abc", read as the value of the digits |
| CText.AsSize | apps/qtViewer/sg/importer/ImportRIVL.cpp:413 | the conversion to the 64-bit size_t, modulo 2^64 (characterised by AsSizeRange and AsSizeOfNegative) |
| CText.ToInt32 | apps/qtViewer/sg/importer/ImportRIVL.cpp:179 | the truncating cast to int32 (characterised by ToInt32Range and ToInt32Wraps) |
| Declarations.DecodeParam | apps/qtViewer/sg/importer/ImportRIVL.cpp:147-211 | a stored value has the kind and as many components as its type tag reads, and nothing is stored only for a texture slot |
| DeclarationProperties.DecodeParamReadsTokens | apps/qtViewer/sg/importer/ImportRIVL.cpp:147-207 | a stored value's components are the first tokens of the body in order: their text for a float tag, their atol value truncated to int32 for an int tag |
| DeclarationProperties.DecodeFloatWords | apps/qtViewer/sg/importer/ImportRIVL.cpp:151-175 | a float tag over words stores exactly the words it reads, whatever words follow them |
| DeclarationProperties.DecodeIntWords | apps/qtViewer/sg/importer/ImportRIVL.cpp:176-207 | an int tag over words, for a name that is not a texture slot, stores the int32 value of each word it reads, whatever words follow them |
| Declarations.TagArity | apps/qtViewer/sg/importer/ImportRIVL.cpp:151-208 | a tag is accepted exactly when it is one of the eight float/int tags, and each reads one to four tokens |
| Declarations.MaterialParams | apps/qtViewer/sg/importer/ImportRIVL.cpp:123-212 | a successful pass over the children only adds parameter names to the map |
| Importer.ParseParam | apps/qtViewer/sg/importer/ImportRIVL.cpp:145-211 | the per-tag branches decode a `param` body exactly as DecodeParam specifies |
| DeclarationProperties.UnknownTagFails | apps/qtViewer/sg/importer/ImportRIVL.cpp:208-211 | a param fails with UnknownParamType exactly when its type is none of the eight tags |
| DeclarationProperties.TooFewTokensFail | apps/qtViewer/sg/importer/ImportRIVL.cpp:154-157 | a body with fewer tokens than the tag reads fails, since atof/atol would get NULL |
| DeclarationProperties.ExtraTokensIgnored | apps/qtViewer/sg/importer/ImportRIVL.cpp:160-175 | tokens beyond those the tag reads do not change the decoded value |
| DeclarationProperties.TextureSlotSkipped | apps/qtViewer/sg/importer/ImportRIVL.cpp:176-185 | an `int` param whose name contains `map_` stores nothing, whatever its body |
| DeclarationProperties.Float3Example | apps/qtViewer/sg/importer/ImportRIVL.cpp:160-166 | `float3` "1.0 2.0 3.0" stores the three numbers in order |
| DeclarationProperties.IntExample | apps/qtViewer/sg/importer/ImportRIVL.cpp:176-179 | `int` "7" under a name without `map_` stores 7 |
| DeclarationProperties.TextureSlotExamples | apps/qtViewer/sg/importer/ImportRIVL.cpp:176-191 | `map_Kd` as `int` is skipped even with an empty body, while `int2` "3 4" is stored as (3, 4) |
| DeclarationProperties.MaterialParamsOk | apps/qtViewer/sg/importer/ImportRIVL.cpp:123-212 | a Material's children decode exactly when every `param` child decodes |
| DeclarationProperties.MaterialDeclParams | apps/qtViewer/sg/importer/ImportRIVL.cpp:95-255 | the pushed Material holds, under each name, the value of the last param child storing it, and no other names |
| DeclarationProperties.MaterialParamsLastWins | apps/qtViewer/sg/importer/ImportRIVL.cpp:123-212 | a name is in the parameter map exactly when some child stores it, and it holds the last stored value |
| Importer.ImportContext.DeclareMaterial | apps/qtViewer/sg/importer/ImportRIVL.cpp:95-255 | appends one Material with the last `name` attribute and the decoded parameters, or reports the param failure; on every path, failures included, the table only grows (Extends) |
| Declarations.TransformChild | apps/qtViewer/sg/importer/ImportRIVL.cpp:264-275 | a resolved child is an in-range, non-NULL entry of the table |
| Declarations.StartsFloat | apps/qtViewer/sg/importer/ImportRIVL.cpp:278-291 | a token on which one `%f` conversion makes progress: a digit, or a sign or point followed by a digit |
| Declarations.LeadingFloats | apps/qtViewer/sg/importer/ImportRIVL.cpp:278-291 | the number of leading tokens that are numbers: all of them start with a number, and the next one does not |
| Declarations.ScanCount | apps/qtViewer/sg/importer/ImportRIVL.cpp:278-294 | sscanf's `numRead`: -1 (EOF) exactly for a body without tokens, otherwise at most 12, and 12 only when the body has at least twelve tokens |
| DeclarationProperties.TransformChildOk | apps/qtViewer/sg/importer/ImportRIVL.cpp:264-275 | the child attributes resolve exactly when each names an in-range, non-NULL entry |
| DeclarationProperties.TransformChildLast | apps/qtViewer/sg/importer/ImportRIVL.cpp:264-275 | the last `child` attribute wins; with none the child is what it was |
| DeclarationProperties.TransformMatrix | apps/qtViewer/sg/importer/ImportRIVL.cpp:277-295 | the Transform is accepted exactly when its body starts with twelve numbers, and the matrix is those twelve tokens |
| DeclarationProperties.EmptyTransformBody | apps/qtViewer/sg/importer/ImportRIVL.cpp:278-295 | an empty body makes sscanf return EOF, which fails the twelve-element check |
| DeclarationProperties.TransformSelfChild | apps/qtViewer/sg/importer/ImportRIVL.cpp:260-272 | a Transform whose `child` is its own index resolves to itself |
| Importer.ImportContext.DeclareTransform | apps/qtViewer/sg/importer/ImportRIVL.cpp:258-295 | appends the Transform, resolves its child, checks the matrix count, and agrees with TransformDecl; on every path, failures included, the table only grows (Extends) |
| Declarations.ArrayAttr | apps/qtViewer/sg/importer/ImportRIVL.cpp:308-323 | the value of the last `ofs`/`num` attribute as a size_t, or size_t(-1) without one; always within size_t |
| Declarations.ArrayBinding | apps/qtViewer/sg/importer/ImportRIVL.cpp:307-326 | a binding is made only when both attributes were set, and it has the shape the child name asks for |
| Importer.ScanBinding | apps/qtViewer/sg/importer/ImportRIVL.cpp:307-326 | the ofs/num scan from size_t(-1) with both asserts gives ArrayBinding's result |
| Importer.ScanBindingStep | apps/qtViewer/sg/importer/ImportRIVL.cpp:310-323 | one attribute updates only the value of its own name |
| DeclarationProperties.MissingArrayAttribute | apps/qtViewer/sg/importer/ImportRIVL.cpp:324-325 | an array child without `ofs` fails with MissingOffset, and one with a valid `ofs` but no `num` fails with MissingCount |
| DeclarationProperties.ArrayAttributesBound | apps/qtViewer/sg/importer/ImportRIVL.cpp:307-326 | an array child binds the offset and count its last `ofs` and `num` attributes spell |
| DeclarationProperties.MinusOneOffset | apps/qtViewer/sg/importer/ImportRIVL.cpp:308-324 | `ofs="-1"` equals the not-set marker and fails like a missing offset |
| Declarations.BindMaterials | apps/qtViewer/sg/importer/ImportRIVL.cpp:412-418 | a materiallist keeps the table's length (refInc changes entries in place) |
| Importer.ImportContext.BindMaterialList | apps/qtViewer/sg/importer/ImportRIVL.cpp:409-418 | the token loop resolves, checks, refIncs and appends each Material as BindMaterials specifies; on every path, failures included, the table only grows (Extends) |
| Properties.RefIncUses | apps/qtViewer/sg/importer/ImportRIVL.cpp:416 | refInc adds one use to the named Material and leaves every other entry's count alone |
| Properties.MaterialListOk | apps/qtViewer/sg/importer/ImportRIVL.cpp:412-415 | a materiallist succeeds exactly when every token names an in-range Material |
| Properties.MaterialListOrder | apps/qtViewer/sg/importer/ImportRIVL.cpp:412-417 | the mesh's list gains the indices the tokens name, in token order |
| Properties.MaterialListUses | apps/qtViewer/sg/importer/ImportRIVL.cpp:412-417 | each Material's use count grows by the number of tokens naming it |
| Properties.KnownIndices | apps/qtViewer/sg/importer/ImportRIVL.cpp:413 | a decimal index in size_t range reads back as itself; above INT_MAX this rests on the `atoi` overflow line of "## Left out" |
| Properties.MaterialListExample | apps/qtViewer/sg/importer/ImportRIVL.cpp:409-418 | the body "0 2 0" lists Materials 0, 2, 0 and refIncs Material 0 twice and Material 2 once |
| Growth.RefIncKinds | apps/qtViewer/sg/importer/ImportRIVL.cpp:414-416 | refInc changes no entry's kind |
| Declarations.MeshChild | apps/qtViewer/sg/importer/ImportRIVL.cpp:305-423 | one child keeps the node a Mesh and the table's length |
| Declarations.MeshChildren | apps/qtViewer/sg/importer/ImportRIVL.cpp:303-424 | the children keep the node a Mesh and the table's length |
| DeclarationProperties.MeshChildContents | apps/qtViewer/sg/importer/ImportRIVL.cpp:305-408 | one child sets only the array field of its own name, to its binding |
| DeclarationProperties.MeshChildMaterialList | apps/qtViewer/sg/importer/ImportRIVL.cpp:409-418 | a materiallist child appends the indices it lists to the material list; any other child leaves the list alone |
| DeclarationProperties.MeshChildrenSlot | apps/qtViewer/sg/importer/ImportRIVL.cpp:303-408 | each array field ends as the binding of the last child of that name, or keeps its value without one |
| DeclarationProperties.MeshChildrenMaterialLists | apps/qtViewer/sg/importer/ImportRIVL.cpp:303-424 | the material list gains the indices of every materiallist child, in document order |
| DeclarationProperties.MeshDeclEntry | apps/qtViewer/sg/importer/ImportRIVL.cpp:298-426 | the Mesh entry holds, per array field, the binding of the last child of that name or none, and as materials the indices of all materiallist children in order |
| DeclarationProperties.LastNamedFrom | apps/qtViewer/sg/importer/ImportRIVL.cpp:303-305 | the position of the last child of a given name, or none exactly when no child has it |
| Importer.ImportContext.DeclareMeshChild | apps/qtViewer/sg/importer/ImportRIVL.cpp:305-423 | one Mesh child is dispatched on its name exactly as MeshChild specifies, with unknown names failing; on every path, failures included, the table only grows (Extends) |
| DeclarationProperties.MeshChildNames | apps/qtViewer/sg/importer/ImportRIVL.cpp:421-423 | a Mesh is accepted only when every child has one of the six accepted names |
| Importer.ImportContext.DeclareMesh | apps/qtViewer/sg/importer/ImportRIVL.cpp:298-426 | appends the Mesh, fills it in child by child, and agrees with MeshDecl; on every path, failures included, the table only grows (Extends) |
| Declarations.GroupChildren | apps/qtViewer/sg/importer/ImportRIVL.cpp:439-444 | a successful Group body adds one child per token |
| DeclarationProperties.GroupChildrenOk | apps/qtViewer/sg/importer/ImportRIVL.cpp:439-444 | a Group body is accepted exactly when every token indexes the table |
| DeclarationProperties.GroupChildrenOrder | apps/qtViewer/sg/importer/ImportRIVL.cpp:439-444 | the Group's children are the indices its tokens name, in order |
| DeclarationProperties.GroupDeclSpec | apps/qtViewer/sg/importer/ImportRIVL.cpp:428-448 | a Group is accepted exactly when every index is at most its own, and appends a Group with those children |
| DeclarationProperties.GroupOfZeroDecl | apps/qtViewer/sg/importer/ImportRIVL.cpp:438-444 | a Group naming node 0 is accepted on any table, even when entry 0 is NULL |
| Importer.ImportContext.DeclareGroup | apps/qtViewer/sg/importer/ImportRIVL.cpp:428-448 | appends the Group, empty for an empty body, and agrees with GroupDecl; on every path, failures included, the table only grows (Extends) |
| Importer.ImportContext.Append | apps/qtViewer/sg/importer/ImportRIVL.cpp:98 | `nodeList.push_back` gives the new entry the next index and keeps the rest |
| Declarations.Declare | apps/qtViewer/sg/importer/ImportRIVL.cpp:46-452 | a declaration adds exactly one entry, or none for `text` |
| Declarations.MaterialDecl | apps/qtViewer/sg/importer/ImportRIVL.cpp:95-255 | a Material declaration pushes one unused Material, named by its `name` attribute, whose parameters are those the param pass computes, and leaves the earlier entries alone |
| Declarations.TransformDecl | apps/qtViewer/sg/importer/ImportRIVL.cpp:258-295 | a Transform declaration needs twelve numbers, pushes one Transform with the first twelve tokens of its body, whose child names a non-NULL entry, and leaves the earlier entries alone |
| Declarations.MeshDecl | apps/qtViewer/sg/importer/ImportRIVL.cpp:298-426 | a Mesh declaration pushes exactly one entry, a Mesh (earlier entries change only by refInc) |
| Declarations.GroupDecl | apps/qtViewer/sg/importer/ImportRIVL.cpp:428-448 | a Group declaration pushes one Group with one child per token of its body and leaves the earlier entries alone |
| Declarations.RefInc | apps/qtViewer/sg/importer/ImportRIVL.cpp:416 | refInc raises the use count of the Material at the index by one and changes no other entry and no other field |
| Declarations.IndexOf | apps/qtViewer/sg/importer/ImportRIVL.cpp:269 | `size_t id = atoi(...)`: the index is within size_t, equals the number read when that fits, and wraps a negative number by 2^64 |
| Declarations.Import | apps/qtViewer/sg/importer/ImportRIVL.cpp:458-483 | an import with a table of its own yields one root and exactly one table entry per non-text declaration |
| Declarations.DeclareFrom | apps/qtViewer/sg/importer/ImportRIVL.cpp:46-453 | the loop adds one entry per non-text declaration |
| Declarations.SceneDecl | apps/qtViewer/sg/importer/ImportRIVL.cpp:37-456 | success needs a root named BGFscene with children, and adds one entry per non-text declaration |
| Declarations.ImportOnTable | apps/qtViewer/sg/importer/ImportRIVL.cpp:475-480 | success needs a document of one BGFscene element, pushes exactly one root, and adds one entry per non-text declaration |
| Properties.PlaceholderDeclarations | apps/qtViewer/sg/importer/ImportRIVL.cpp:51-56 | Texture2D and unknown declarations append NULL, keep the root, and never fail |
| Properties.DeclareKind | apps/qtViewer/sg/importer/ImportRIVL.cpp:46-452 | a successful declaration leaves an entry of the kind its name calls for at the next index |
| Properties.DeclareLast | apps/qtViewer/sg/importer/ImportRIVL.cpp:426-448 | only a Mesh or Group becomes `lastNode`, and everything else keeps it |
| Properties.KindSurvives | apps/qtViewer/sg/importer/ImportRIVL.cpp:46-453 | the entry a declaration leaves keeps its kind through all later declarations |
| Properties.AlignedAt | apps/qtViewer/sg/importer/ImportRIVL.cpp:46-453 | the k-th declaration owns the entry at the count of non-text declarations before it, with its expected kind |
| Properties.DeclarationsAligned | apps/qtViewer/sg/importer/ImportRIVL.cpp:46-453 | the alignment holds for every declaration of the loop at once |
| Properties.LastRootFrom | apps/qtViewer/sg/importer/ImportRIVL.cpp:426-448 | the result is the last Mesh/Group position, or none when there is no such declaration |
| Properties.RootIsLastMeshOrGroup | apps/qtViewer/sg/importer/ImportRIVL.cpp:45-455 | the loop ends with `lastNode` at the entry of the last Mesh or Group, or the root it started with |
| Growth.DeclareFromExtends | apps/qtViewer/sg/importer/ImportRIVL.cpp:46-453 | the loop only appends entries and changes earlier ones only by growing Material use counts |
| WellFormedness.DeclareWellFormed | apps/qtViewer/sg/importer/ImportRIVL.cpp:46-452 | each declaration keeps every reference pointing backward and every material-list entry a Material |
| WellFormedness.DeclareFromWellFormed | apps/qtViewer/sg/importer/ImportRIVL.cpp:46-453 | the declaration loop keeps the node table well formed |
| WellFormedness.ImportWellFormed | apps/qtViewer/sg/importer/ImportRIVL.cpp:475-480 | an import onto a well-formed table leaves a well-formed table |
| Importer.ImportContext.ParseBgfScene | apps/qtViewer/sg/importer/ImportRIVL.cpp:37-456 | the root checks and the declaration loop give SceneDecl's table and `lastNode`, or its failure; on every path, failures included, the table only grows (Extends) |
| Importer.ImportContext.ImportRivl | apps/qtViewer/sg/importer/ImportRIVL.cpp:475-480 | the document check, then parseBGFscene on the context's current table; on every path, failures included, the table only grows (Extends) |
| Importer.ImportFresh | apps/qtViewer/sg/importer/ImportRIVL.cpp:458-483 | an import on a context of its own gives Import's World |
| ImportProperties.ImportFormat | apps/qtViewer/sg/importer/ImportRIVL.cpp:476-477 | NotRivlFormat is raised exactly when the document is not one BGFscene element, so the root-name check of parseBGFscene never fires |
| ImportProperties.ImportEmptyModel | apps/qtViewer/sg/importer/ImportRIVL.cpp:42-43 | a BGFscene with no children fails as an empty model |
| ImportProperties.DeclareFromFailure | apps/qtViewer/sg/importer/ImportRIVL.cpp:46-453 | the loop fails only with a declaration-level failure, never a document-level one |
| ImportProperties.MaterialParamsFailure | apps/qtViewer/sg/importer/ImportRIVL.cpp:151-211 | a Material fails only with an unknown tag or a missing token |
| ImportProperties.BindMaterialsFailure | apps/qtViewer/sg/importer/ImportRIVL.cpp:412-415 | a materiallist fails only with an out-of-range index or a non-Material |
| ImportProperties.MeshChildrenFailure | apps/qtViewer/sg/importer/ImportRIVL.cpp:303-423 | a Mesh fails only with a missing `ofs` or `num`, an out-of-range index, a non-Material in a materiallist, or an unknown child name |
| ImportProperties.GroupChildrenFailure | apps/qtViewer/sg/importer/ImportRIVL.cpp:439-441 | a Group fails only with an out-of-range index |
| ImportProperties.TransformChildFailure | apps/qtViewer/sg/importer/ImportRIVL.cpp:267-271 | a Transform child fails only with an out-of-range index or a NULL entry |
| ImportProperties.ImportShape | apps/qtViewer/sg/importer/ImportRIVL.cpp:37-456 | a fresh import pushes one root, holds one entry per non-text declaration, aligns each declaration with its entry and kind, and is well formed |
| ImportProperties.ImportRoot | apps/qtViewer/sg/importer/ImportRIVL.cpp:45-455 | the root is NULL without a Mesh or Group, and otherwise the entry (a Mesh or Group) of the last one |
| ImportProperties.GroupDocOnTable | apps/qtViewer/sg/importer/ImportRIVL.cpp:33-33 | on a table that already holds `t`, a Group naming node 0 gets child 0 of the old table |
| ImportProperties.SharedTableCounterexample | apps/qtViewer/sg/importer/ImportRIVL.cpp:33-33 | importing the same document twice on the shared table gives a different root and a different scene |

## Left out

- Opening and mapping the binary file (`fopen`, `fseek`, `mmap` in `importRIVL`) is left out. An array binding keeps only its offset, count and element shape. This is I/O. On its error paths the source calls `perror` and then continues: with a NULL `FILE*` into `fseek`, and with descriptor -1 into `mmap`.
- `xml::readXML` is not part of this model. The document arrives already parsed, as a `Doc` value.
- Floating point is left out. A float parameter and the Transform matrix keep their token text. The `%f` conversion is abstracted as `StartsFloat`, meaning that a token starts with a number.
- Declarations.StartsFloat: a token that only starts with a number counts as a whole `%f` conversion, whereas sscanf stops inside it. So `ScanCount` gives 12 for a body such as "1, 1, 1, 1, 1, 1, 1, 1, 1, 1, 1, 1", and TransformDecl accepts it, where the source converts one number and FATALs. Text that sscanf splits inside one token (such as "1-2") and the `inf`, `nan` and hexadecimal forms are not modelled either.
- Overflow of `atoi`/`atol` is not modelled, because it is undefined behaviour in C. `Atoi` reads any number of digits. The size_t and int32 conversions of the result are written out explicitly.
- Properties.KnownIndices: its requires admits any index up to size_t's maximum, but the source reads indices with `atoi`, whose result is an `int`. For a decimal index above INT_MAX (2^31-1) the source's value is undefined, and the lemma states what the model gives under the overflow line above.
- Console warnings (`cout`) are left out. They have no effect on the scene.
- A Material's `textures` child is skipped. In the source it only prints warnings; its `num` attribute is read into a local and never used.
- The `#else` branches for Texture2D and Material textures are compiled out in the source, so they are left out.
- Reference counting is modelled only as a Material's use count, raised by each `refInc` of a materiallist. Ownership and release of nodes are left out.
- The file undefines NDEBUG, so its asserts always fire; the model makes each one a fatal Failure.
- CText.AsSize: the range and identity facts are stated in the lemmas AsSizeRange and AsSizeOfNegative. They are not in its own contract.
- CText.ToInt32: the range and wrap-around facts are stated in the lemmas ToInt32Range and ToInt32Wraps. They are not in its own contract.

## Findings

| source | as written | input that shows it | evidently intended | confidence | as-written member | corrected member |
|---|---|---|---|---|---|---|
| apps/qtViewer/sg/importer/ImportRIVL.cpp:33 | the node table is a global `nodeList` that is never cleared, so a second import resolves its file's indices against the previous file's nodes | import the document `<BGFscene><Group>0</Group></BGFscene>` twice in one process: first the Group contains itself (index 0), then the second Group (index 1) contains the first file's Group | every import resolves indices against a table of its own, so importing the same files twice builds the same scene (ImportProperties.ImportShape proves that a fresh import aligns declaration k with the entry counted from index 0) | not executed; high for a second import in one process | ImportProperties.SharedTableCounterexample | Importer.ImportFresh |

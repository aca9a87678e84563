# ROS interface generator: a verified model of its naming and scanning core

The ROS interface generator reads protobuf schemas (`.proto`) and vehicle
interface descriptions (`.sdvsidl`) and writes ROS 2 interface files
(`.msg`). This project models in Dafny the part of it that decides names and
rewrites text, and proves what that part promises. The model has five areas.

- **Block scanning** (`proto_parser.py`, module `ProtoParser`). A
  `message`, `enum` or `service` header is located in a file's text, and its
  block is cut out by counting braces. The corpus is an ordered sequence of
  files, each with a path, a name and its content (`None` when it cannot be
  read).
- **Name resolution and generation** (`msg_generator.py`, module
  `MsgGenerator`).
  - The output-name resolver works over the registry of generated names
    (name to topic hint). It grants a free name and declines a name that was
    already generated for the same hint. A name held by another hint gets the
    hint's acronym in front, followed by a numbered search when that is taken
    too.
  - `generate_enum_block` turns an enum block into constant lines.
  - `generate_msg_type` is the class `Generator`. It holds the registry, the
    written files (as line sequences), the manifest and the warning log.
- **Helpers** (`utils.py`, module `Utils`). These are the naming helpers
  (snake case, Pascal case, acronyms, topic hints, the ROS file-name remap),
  the integer-width choice for enums, name shortening and the field-option
  searches. Three batch operations are included: the projects filter, the
  remap of a manifest's records, and the in-memory reconciliation of
  duplicated topics.
- **Interface-description scanning and deduplication**
  (`extractor_sdvsidl.py`).
  - Module `Extractor` holds the rpc scanner and the topic scanner, which
    run over the lines of a document.
  - Module `Versions` holds the search for versioned file names and the
    deduplication of ROS file names by topic hint.
  - Module `Index` holds the dictionary-building loops they share.
- **Sanitizing a directory** (`sanitizer.py`, module `Sanitizer`). The rename
  map is built from the file stems. Every field line is rewritten (`float` to
  `float32`, renamed types). Then the files are renamed.

Module `Text` holds the ASCII character classes and the Python string
operations the rest relies on: `split`, `join`, `strip`, `count`,
`replace`, decimal rendering and ordered de-duplication.

Regular expressions are not modelled by a general engine. Each pattern the
code uses is a small scanner written for that pattern, with the same
greediness and backtracking. Python dictionaries are modelled as maps, or as
ordered association lists where their insertion order matters.

## Model

| member | source | states |
|---|---|---|
| Utils.ResolveType | utils.py:27-38 | A type is returned exactly when the option is one of the four `PBS_` names and the base is `uint…` or `int…`. The result is `uint` followed by the option's width in bits for a `uint…` base, and `int` followed by that width for an `int…` base. |
| Utils.PbsBitsText | utils.py:20-25 | Every `PBS_` option maps to 8, 16, 32 or 64 bits. |
| Utils.SnakeCaseIdempotent | utils.py:48-49 | A snake-case name has no upper-case letter, so converting it again changes nothing. |
| Utils.SnakeCaseKeepsOut | utils.py:48-49 | Snake case adds no character other than `_` and lower-case letters. |
| Utils.PascalCaseShape | utils.py:52-54 | A Pascal-case name has no `_` and is as long as its input without the underscores. |
| Utils.HintToAcronymByScan | utils.py:57-59 | The acronym is the upper-cased first character of every non-empty `_`-part, in order. |
| Utils.HintToAcronymEmpty | utils.py:57-59 | The acronym is empty exactly when the hint is empty or made only of `_`. |
| Utils.IsPrimitiveTypeQualified | utils.py:62-63 | A type is primitive exactly when its last `.`-part is one of the primitive type names, whether it is written plain or after any package. |
| Utils.ComputeTopicHint | utils.py:66-74 | The hint has no `.` and no upper-case letter, and it is empty unless the topic has at least three parts. |
| Utils.TopicHintFromHint2 | utils.py:66-79 | For a topic of four or more parts, or of three parts around `adas`, `chassis` or `body`, the hint is the second hint with `.` turned into `_`, in snake case; every other topic has the empty hint. |
| Utils.TopicHint2Restores | utils.py:77-79 | The hint, a `.` and the last part give back the topic; a topic without `.` gives the empty hint. |
| Utils.RemapFqinBound | utils.py:82-110 | The fqin remap keeps a `DT` name unchanged and otherwise bounds the name by 63 characters. A name ending in `Request` or `Response` after the version, `XX` and `_t` rewrites ends in `DT`, also after truncation. |
| Utils.RemapFilename | utils.py:113-147 | The original is the name without `.msg`/`.srv`. A `DT` stem is returned unchanged. Any other stem gives at most 63 ASCII letters and digits, ending in `DT` when the joined tokens end in `Request` or `Response`. |
| Utils.RemapFilenameInvariant | utils.py:113-147 | Every remapped name either ends in `DT` or is at most 63 letters and digits. |
| Utils.TokensFrom | utils.py:133 | Every token the pattern finds is non-empty and made of letters and digits. |
| Utils.CamelCaseTokens | utils.py:133 | A camelCase name splits into two tokens at its capital. |
| Utils.TruncateLeft | utils.py:143-146 | A longer name keeps its last 62 characters after its upper-cased 63rd from the end; a name of at most 63 characters is unchanged. |
| Utils.RemapQuestionResponse | utils.py:113-147 | `questionResponse` is remapped to `QuestionResponseDT`. |
| Utils.DetermineRosType | utils.py:169-187 | The chosen type is one of the six integer types. |
| Utils.DetermineRosTypeNarrowest | utils.py:169-187 | The type is unsigned exactly when no value is negative. It is `uint8`, `uint16`, `int8` or `int16` exactly when the values fit that type and not a narrower one of the same signedness. |
| Utils.DetermineRosTypeFits | utils.py:169-187 | Every value of the 32-bit range fits the chosen type. |
| Utils.MixedSignsNeedInt16 | utils.py:181-185 | The values -1 and 200 need `int16`. |
| Utils.ShortenNameSimple | utils.py:190-196 | The result is a prefix of the name. It is the whole name when prefix and name fit. Otherwise the prefix and the result fill the bound exactly, provided the prefix fits. |
| Utils.FixedSizeOfBytes | utils.py:199-201 | A size is found only where the options name `variable_type_max_size`. |
| Utils.PrimitiveByteSize | utils.py:204-206 | A size is a `PBS_` name, found only where the options name `primitive_byte_size`. |
| Utils.OptionSearchValue | utils.py:199-206 | The captured value is digits for the size option and a `PBS_` name for the byte-size option. |
| Utils.NoParenthesisNoOption | utils.py:199-206 | Options that open no parenthesis name no size. |
| Utils.OptionFound | utils.py:199-206 | An option written on one line as `(…KEY) = VALUE`, with a value of digits or `PBS_` and word characters, is found, and the value returned is the one written. |
| Utils.FixedSizeFound | utils.py:199-201 | `(…variable_type_max_size) = DIGITS` gives the number those digits write. |
| Utils.PrimitiveByteSizeFound | utils.py:204-206 | `(…primitive_byte_size) = PBS_WORD` gives `PBS_WORD`. |
| Utils.OccupiedByRegistration | utils.py:463-473 | A name not yet generated is free. Once registered for a hint it is free for that hint and occupied for every other hint. |
| Utils.ProjectOfLine | utils.py:368-375 | A project name is non-empty, stripped and free of `#`. |
| Utils.ProjectLineCutNonEmpty | utils.py:372-375 | A stripped line that does not start with `#` always names a project, so the later emptiness test never fires. |
| Utils.LoadProjectsFilter | utils.py:350-379 | A missing file gives no project. Otherwise the result is the projects of the lines, each kept at its first occurrence. |
| Utils.ProjectsFilterProperties | utils.py:364-378 | The filter lists each project once, and it lists exactly the projects named on some line. |
| Utils.RemapRecord | utils.py:254-259 | Only the file name changes. It becomes the remapped stem with `.msg` when it ended in `.msg`, else with `.srv`. |
| Utils.ApplyRemapOnJson | utils.py:248-260 | Every record of the array is remapped in place. |
| Utils.RemapRecordExtension | utils.py:258-259 | After the remap every name ends in `.msg` or `.srv`, and a `.msg` name keeps its extension. |
| Utils.StripExt | utils.py:388-390 | The stem and the extension give back the name, and the extension is empty or four characters. |
| Utils.GroupByTopic | utils.py:398-404 | The first pass builds the grouping of the records by topic. |
| Utils.ByTopicMembers | utils.py:398-404 | A topic has a group exactly when some record has it, and the group holds exactly those records' (file name, proto file) pairs. |
| Utils.PrefixRecords | utils.py:423-441 | Every record is reconciled in place, and the changes list one entry per rewritten record, in order. |
| Utils.FindAndPrefixDuplicates | utils.py:382-441 | The records of the duplicated topics are reconciled in place. The `changes` list the source builds is given back as an out-parameter, one entry per rewritten record. |
| Utils.DuplicateTopicsCharacterized | utils.py:406-420 | A topic is reconciled exactly when two of its records have different file names and one stem is the proto file's acronym followed by the topic. |
| Utils.ReconciledChangesOnlyTopicStems | utils.py:425-441 | Reconciliation changes only the file name of a record of a duplicated topic whose stem is the topic. The new name is the acronym, the topic and the extension (`.msg` when there was none). |
| ProtoParser.Search | proto_parser.py:7 | The search returns the leftmost match at or after the start, and there is no match before it. |
| ProtoParser.HeaderMatchShape | proto_parser.py:15 | A match is the keyword, whitespace, the exact name, optional whitespace and `{`. |
| ProtoParser.ScanBlock | proto_parser.py:18-31 | The brace walk stops where the block-end function says. |
| ProtoParser.BlockEndBalanced | proto_parser.py:18-31 | The walk stops right after the first `}` that brings the depth back to 0 past a `{`. If there is none it runs to the end, and the depth stays positive past the first `{`. |
| ProtoParser.HeaderBlockBalanced | proto_parser.py:15-32 | A block cut at a header has as many `{` as `}`, and every proper prefix past its first `{` has more `{` than `}`. An unbalanced block runs to the end of the text. |
| ProtoParser.FindMessageBlockWithHint | proto_parser.py:6-35 | The loop over the files returns the block the search function defines. |
| ProtoParser.MessageBlockFirst | proto_parser.py:6-35 | The block comes from the first eligible readable file that has the header. It is None exactly when no file has one. |
| ProtoParser.FindMessageBlock | proto_parser.py:38-67 | The search without hint is the hinted search with the empty hint. |
| ProtoParser.EmptyHintEligible | proto_parser.py:10 | With no hint, every `.proto` file is eligible. |
| ProtoParser.EnumMatches | proto_parser.py:83-101 | Every block found carries exactly the name asked for. |
| ProtoParser.EnumBlocksOfText | proto_parser.py:83-101 | The loop over the matches of one text lists them in order. |
| ProtoParser.FindEnumBlocks | proto_parser.py:70-106 | The loop over the files returns the listing the search function defines. |
| ProtoParser.EnumBlocksListed | proto_parser.py:70-106 | Every listed file has at least one match, every match has the name asked for, and every readable `.proto` file with the header is listed. |
| ProtoParser.ScanService | proto_parser.py:144-153 | The service walk, started at count 1, stops where the service-end function says. |
| ProtoParser.ServiceEndBalanced | proto_parser.py:144-153 | The count stays positive until the walk stops. It stops where the count is 0, or at the end of the text with the count still positive. |
| ProtoParser.RpcIn | proto_parser.py:158-161 | A signature is found exactly when the rpc pattern matches, and it is the match's request and response groups, stripped. |
| ProtoParser.RpcMatchShape | proto_parser.py:127-129 | A match is `rpc`, whitespace, the exact name, optional whitespace, `(` request `)`, whitespace, `returns`, whitespace and `(` response `)`, with no `)` in the response. |
| ProtoParser.RpcInShape | proto_parser.py:127-161 | What is returned are the stripped groups of the leftmost match, which has the rpc signature's shape. |
| ProtoParser.FindServiceBlock | proto_parser.py:126-166 | The loop over the files returns the signature the search function defines. |
| ProtoParser.ServiceSignatureFirst | proto_parser.py:126-166 | The signature comes from the first eligible readable file whose service block holds the rpc. It is None exactly when no file has one. |
| MsgGenerator.FirstFreeNumber | msg_generator.py:80-90 | The number is the least one at or after the start whose candidate is not held by another hint. |
| MsgGenerator.OccupiedIsSmall | msg_generator.py:80-90 | Only numbers below 10 to the power of the longest registered name's length can be occupied, so the numbered search ends. |
| MsgGenerator.NextWithNumber | msg_generator.py:80-90 | The counting loop returns the candidate of the first free number. |
| MsgGenerator.ResolveConflict | msg_generator.py:48-129 | A granted name is free in the registry. A free name is granted as is, and a name held under the same hint is declined. A name held by another hint gives a different name that no other hint holds. |
| MsgGenerator.ResolveOutputFilenameConflict | msg_generator.py:48-129 | The resolver with its numbered loop computes the resolution and the warning the specification functions define. |
| MsgGenerator.RegisteredNameDeclined | msg_generator.py:62-69 | A name held under the same hint is not generated again, and the already-generated warning is logged. |
| MsgGenerator.AcronymPrepended | msg_generator.py:107-115 | A name without the acronym gets it in front when that is free. Otherwise it gets the first free `acro{n}name` from n = 2. |
| MsgGenerator.AcronymNumberContinued | msg_generator.py:94-106 | A name that already starts with the acronym is not prefixed twice. The count goes on from the digits after the acronym plus one, else from 2. |
| MsgGenerator.EntriesFrom | msg_generator.py:24 | Every enum entry found has a name and an integer value. |
| MsgGenerator.EnumBlockOf | msg_generator.py:22-45 | The empty-enum warning is given exactly when the block has no entry. |
| MsgGenerator.GenerateEnumBlock | msg_generator.py:22-45 | The loop builds the lines and the warning the specification function defines. |
| MsgGenerator.EnumConstantsFit | msg_generator.py:33-43 | With room for `C_` every constant name fits. The length-error branch is never taken, and there is one line per entry, in order. |
| MsgGenerator.EnumBlockShape | msg_generator.py:29-45 | A block with entries gives `# Add Enum <name>`, then one constant line per entry in order. All lines use the type chosen from all the values. |
| MsgGenerator.SinglePassCollapse | msg_generator.py:34-35 | `__` is collapsed in a single pass: three underscores become two. |
| MsgGenerator.RepeatedSuffixShape | msg_generator.py:176-177 | The suffix is `[]` exactly when no `repeated_field_max_count` option is found, and otherwise that option's value, which is digits, between brackets. |
| MsgGenerator.RepeatedSuffixFound | msg_generator.py:176-177 | `(…repeated_field_max_count) = DIGITS` gives the suffix `[DIGITS]`. |
| MsgGenerator.PrimitiveRosType | msg_generator.py:194-203 | A primitive type changes only under a `PBS_` option, and then to what `resolve_type` gives for the field type and that option. |
| MsgGenerator.WrittenFieldName | msg_generator.py:179-181 | The written name is at most 63 characters, is a prefix of the field name, and is the name itself when that fits. |
| MsgGenerator.PlainFieldLine | msg_generator.py:176-203 | Only a `bytes` field named `raw_bytes` is skipped. Another `bytes` field is `uint8[N] name` when its size option gives a non-zero N, else `uint8 name`. A primitive field is its resolved type, the repeated suffix only when it is repeated, a space and the name. |
| MsgGenerator.SizedBytesLine | msg_generator.py:183-191 | A `bytes` field written with `(…variable_type_max_size) = DIGITS`, a non-zero number, gives the line `uint8[N] name` with that number. |
| MsgGenerator.EnumFieldLines | msg_generator.py:206-221 | The loop over the enum blocks of a field gives the output the specification function defines. |
| MsgGenerator.EnumWrittenOnce | msg_generator.py:206-221 | An enum already used in the file is not written again. Each of its blocks adds only a `# Uses enum` line, and nothing is logged. |
| MsgGenerator.EnumFirstUse | msg_generator.py:206-221 | The first use of an enum writes its type line and its whole block, and marks the enum as used. |
| MsgGenerator.LookupBlock | msg_generator.py:140-145 | A block found is never empty. Without a hint, it is found exactly when the schema has a non-empty block for the type. |
| MsgGenerator.Generator.GenerateMsgType | msg_generator.py:132-243 | The registry and manifest only grow. A missing block or a declined name logs one warning and changes nothing else. A granted name is registered for the hint before anything else, and on completion its file is written. |
| MsgGenerator.Generator.StoreFile | msg_generator.py:234-242 | The written file is moved to its final name (the plain one or the hint's acronym in front), and the manifest gets that name's record only when records are kept; nothing else changes. |
| MsgGenerator.Generator.WriteFile | msg_generator.py:155-243 | The name is registered for the hint, and on completion the file and its manifest record are written. |
| MsgGenerator.Generator.WritePlainField | msg_generator.py:183-192 | The field's line is emitted, or the `raw_bytes` warning is logged. |
| MsgGenerator.Generator.WriteEnumField | msg_generator.py:207-221 | The enum branch emits the lines, marks the enums as used and logs the warnings of the specification function. |
| MsgGenerator.Generator.WriteTypedField | msg_generator.py:205-232 | A field whose type is neither `bytes` nor primitive: when enum blocks named by the last segment of its type exist, its lines, used enums and status are those of the enum output and there is no self-collision; otherwise it is one line, the resolved message name, the repeated suffix, a space and the field name, with the used enums unchanged. The registry keeps the open file's name for its hint and only grows. |
| MsgGenerator.Generator.GenerateNested | msg_generator.py:228-232 | A self-collision is reported exactly when the nested type was generated and has the open file's own name under another hint; the open file's name stays registered to its own hint. |
| MsgGenerator.Generator.WriteMessageField | msg_generator.py:223-232 | The field line uses the resolved name. A declined name changes nothing. A self-collision is reported exactly when a granted name is the open file's own name under another hint. |
| MsgGenerator.Generator.Log | msg_generator.py:14-15 | A warning is appended to the log. |
| Extractor.SearchFindsFirst | extractor_sdvsidl.py:37-39 | The search finds exactly the first value that `findall` lists. |
| Extractor.BlockWithoutService | extractor_sdvsidl.py:37-42 | A block without a service line yields no pair. |
| Extractor.NoRpcBlockNoPairs | extractor_sdvsidl.py:25-44 | A document where no line opens an rpc block yields no pair. |
| Extractor.OneRpcBlock | extractor_sdvsidl.py:25-44 | A document that is one rpc block, closed on its last line, yields its service with each method, in order. |
| Extractor.ExtractRpcMethods | extractor_sdvsidl.py:25-44 | The line loop returns the pairs the scan function defines. |
| Extractor.TopicAt | extractor_sdvsidl.py:12 | A topic match is a non-empty run of `[\w.]`, with an optional word suffix. |
| Extractor.ReadEventBlock | extractor_sdvsidl.py:66-72 | The block is the lines from the event line while the running count stays positive. |
| Extractor.NoEventNoName | extractor_sdvsidl.py:94-105 | Outside event blocks, every entry comes from one line and has no event name. |
| Extractor.InterfaceShape | extractor_sdvsidl.py:85-89 | The base type is the last `.`-part of the topic. The ROS file name is the base type followed by the PascalCase of the suffix, or the base type alone when there is no suffix. The event name is the block's. |
| Extractor.ScanLine | extractor_sdvsidl.py:62-106 | One turn of the line loop appends the interfaces of the next scan step (an event block, or the first topic of a plain line) and moves to the line after it. |
| Extractor.ExtractTopics | extractor_sdvsidl.py:60-105 | The line loop returns the interfaces the scan function defines. |
| Index.IndexByKey | extractor_sdvsidl.py:138-142 | The first loop builds the dictionary of names by key. |
| Index.IndexGroups | extractor_sdvsidl.py:138-142 | Each key lists exactly the names with that key, in order; a key no entry has lists none. |
| Index.SelectRepeated | extractor_sdvsidl.py:144-160 | The second loop collects each marked name that shares its key with another name, once, in order of first occurrence. |
| Index.SetIndexByKey | extractor_sdvsidl.py:183-185 | The loop builds the set of hints for each file name. |
| Index.SetIndexMembers | extractor_sdvsidl.py:183-185 | The set of a key holds exactly the values of the entries with that key. |
| Versions.Unversioned | extractor_sdvsidl.py:131-141 | A versioned stem loses exactly its two-character suffix; any other stem is unchanged. |
| Versions.FindVersionedMatches | extractor_sdvsidl.py:120-162 | The two loops return the matches the specification function defines. |
| Versions.VersionedMatchesCharacterized | extractor_sdvsidl.py:120-162 | The result has no duplicates. It lists exactly the versioned names that share their unversioned stem (and the hint, when hints are kept) with an entry of another name. |
| Versions.DeduplicateByTopicHint | extractor_sdvsidl.py:165-202 | The loops return the renamed list the specification function defines. |
| Versions.DeduplicatedKeepsEntries | extractor_sdvsidl.py:189-201 | The length and order are kept, and only file names change. |
| Versions.SeveralHints | extractor_sdvsidl.py:183-193 | A name that occurs under two different hints has more than one hint in the map. |
| Versions.SingleHint | extractor_sdvsidl.py:183-193 | A name that occurs under one hint only has that hint alone in the map. |
| Versions.SharedNamePrefixed | extractor_sdvsidl.py:190-196 | A name that is not a versioned match and occurs under two hints gets the acronym of the first `.`-part of its own hint in front. |
| Versions.UniqueNameKept | extractor_sdvsidl.py:190-201 | A name that is not a versioned match and occurs under one hint only is unchanged. |
| Versions.VersionedRenamedXX | extractor_sdvsidl.py:178-199 | A versioned match becomes its name followed by `XX`, whatever its hints. |
| Sanitizer.BuildRenameMap | sanitizer.py:59-64 | The loop over the stems builds the rename map the specification function defines. |
| Sanitizer.RenameMapExact | sanitizer.py:61-64 | A stem is a key exactly when its remapped name differs. Its value is the remap of the last such stem in listing order. |
| Sanitizer.RenameValuesWellFormed | sanitizer.py:61-64 | Every target differs from its key and is at most 63 letters and digits. |
| Sanitizer.RewriteLine | sanitizer.py:75-102 | An unchanged line is kept verbatim. Blank, `#`, `=`, `---`, package and `builtin_interfaces` lines are never changed, and neither is a line that is not exactly two words. |
| Sanitizer.SanitizeLines | sanitizer.py:71-102 | The loop builds the new lines and the changed flag the specification functions define. |
| Sanitizer.UnchangedIsIdentity | sanitizer.py:104-106 | When no line changed, the new lines are the old ones, one for one. |
| Sanitizer.FloatFieldWidened | sanitizer.py:89-92 | A `float` field, with or without an array suffix, becomes `float32` with the same suffix and name, and counts as changed. |
| Sanitizer.FloatFieldStable | sanitizer.py:89-92 | A rewritten float line is left alone by a second pass. |
| Sanitizer.PrimitiveFieldKept | sanitizer.py:93-94 | A field of any other primitive type is kept verbatim. |
| Sanitizer.TypeFieldRenamed | sanitizer.py:95-102 | A non-primitive type is replaced by its rename-map entry, or else by its remap. The line changes exactly when that differs. |
| Sanitizer.InterfaceDir.SanitizeInterfaceFiles | sanitizer.py:57-114 | The returned rename map is the one built from the listing. The directory becomes the rewritten files with the renames applied. |
| Sanitizer.InterfaceDir.RenameFiles | sanitizer.py:109-114 | Each existing file of the map is moved to its new stem, in map order. |
| Sanitizer.RenamedAway | sanitizer.py:109-114 | A renamed stem that is no rename's target is absent afterwards. |
| Sanitizer.RenamesKeepContents | sanitizer.py:109-114 | Renaming moves contents and never invents one: every file afterwards holds some file's contents from before. |
| Sanitizer.SanitizedDirectory | sanitizer.py:66-106 | Rewriting keeps every stem of the directory. Each file becomes its rewritten lines and keeps its number of lines. |

## Left out

- Reading and writing files, directory walks, JSON and CSV, and console
  output are not modelled. The corpus is a sequence of files in traversal
  order, the outputs are line sequences in maps, and the warning log is a
  sequence of structured warnings rather than text.
- Character classes (`\s`, `\d`, `\w`, upper and lower case) are ASCII only;
  Python applies them to all of Unicode.
- `$` in a pattern is modelled as the end of the text. Python also matches it
  before a final line break; names never hold one.
- The lookup of a topic's proto file (`find_proto_file_msg2`) is not part of
  the shown source. The topic scanner takes it as a function parameter
  `hintOf`.
- The tuple-returning `find_message_block_with_hint(..., top_level)` that
  `generate_msg_type` calls does not match the one in `proto_parser.py`. The
  generator takes the schema as a `Schema` value of lookup functions.
- `MsgGenerator.Generator.GenerateMsgType` carries a `fuel` bound on its
  depth of recursion. The source recurses until the registry stops it, and
  with lookups given as functions that depth has no bound to prove.
  Running out of fuel stops generation and changes nothing.
- `MsgGenerator.Generator.WriteField` and `MsgGenerator.Generator.WriteBody`
  state only that the registry and manifest grow and that the open file
  stays registered. The exact lines are stated by the field-level members
  they call.
- `MsgGenerator.FieldsFrom`, the scanner of a block's field lines, carries
  no contract of its own. Which fields of the text it finds is fixed only by
  its definition.
- An enum block without values makes the source raise on `min([])`. The
  model stops generation with `completed` false and keeps the files written
  so far.
- Nested files that rename the open file are applied when the file is
  closed. The interleaving of the source's writes with nested writes is not
  modelled.
- `main.py`, `srv_generator.py` and `parse_srv_and_generate_msgs` in
  `sanitizer.py` are not part of this model. They are orchestration and
  file plumbing.
- Utils.FindAndPrefixDuplicates: `find_and_prefix_ros_filename_duplicates`
  has no `return` statement, so it gives back nothing despite its annotation.
  The model hands back the local `changes` list as an out-parameter so that
  its contents can be stated; callers of the source see only the records
  changed in place.
- `Versions.Stem` takes the last `/`-component and drops its last suffix. It
  does not normalise paths further.
- `Versions.FindVersionedMatches` computes each entry's key, stem and
  version mark before its loops. The source computes them inside the loops,
  with the same values.
- The `replace('.', '_')` after `split('.')[0]` in the deduplication can
  never change anything, so the model leaves it out.
- The sanitized directory is a map from stem to lines for one extension.
  Both directory listings are the same given order, and a rename replaces
  an existing file of the target stem. The bytes written back are not
  modelled beyond the line sequence.

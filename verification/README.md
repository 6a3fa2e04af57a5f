# faerie in Dafny

faerie collects declarations, definitions and links in an *artifact* and emits it
as an ELF or a Mach-O object file. What is hard about it is that many numbers kept
separately during the build (string-table size, code size, section count, local
count, symbol offsets, padding, relocation offsets) must agree with the bytes that
are finally written. The program checks some of this at run time with `assert_eq!`,
`expect` and `unwrap`, and most of it not at all.

This project models the artifact, both emitters and a reader for each format, and
proves for every run of the interface and every artifact:

* **Reading back.** A reader that knows nothing about the emitter (it starts from the
  file header, decodes the section count, finds the symbol table by type, follows
  `sh_link`, `sh_info` and the extended index table) recovers the sections, their
  exact bytes, the symbols with their names, and the relocations of the artifact.
  The same holds for Mach-O from its load commands.
* **When emission panics.** For every artifact that may be emitted, whatever its names,
  emission succeeds *if and only if* a condition on the artifact holds. For ELF: its name
  is not one of two table names, no non-empty contents are overwritten by a later
  definition of the same section, every link is of a supported kind, and every link
  starts in a section that exists. With distinct section names only the first and third
  remain. For Mach-O: section names fit 16 bytes and no link is of a refused kind.
* **Meaning of links.** In an ELF file each link is one relocation, at its offset. It is
  filed under the section that holds `from`, and refers to what `to` denotes, exactly if
  that definition keeps the symbol of its name: a function or data object that is not
  global loses it to a custom section symbol of the same name. In a Mach-O file each link
  either is dropped or is one relocation; which links are dropped, which relocations patch
  the bytes of `from`, and which refer to the target's own symbol, is characterised
  exactly for automatic, raw and debug links.
* **Whole runs of the interface.** After any sequence of `declare`, `define` and `link`
  calls, what emission is handed is exactly what the accepted calls say: contents, custom
  symbols, declarations in force, and links in order. When a call is accepted, and with
  which error it is refused, is told from the calls before it. What emission looks up is
  there.
* **What a file says.** Every section, symbol and relocation of a file that reads back is
  described in the artifact's own terms: bindings by scope, types by kind, names and
  segments by what is defined, relocation types by the declarations at the ends of the
  link.
* **Order independence** of declaration lists, from `absorb` computing least upper
  bounds.

Every emitted file reads back as its artifact *if and only if* section names are distinct
(ELF), or no custom section is called like a built-in one (Mach-O). Where symbol names
repeat, what reads back are the symbols that survive: the last one of a name in ELF, the
first one in Mach-O.

Several properties a reader would expect are false of the code. Each has a concrete
artifact and an exact condition, in both directions: the local/global split of the
ELF symbol table, the ELF section count (and with it whether the file can be read), the
agreement of the ELF layout passes, whether an ELF link starts in a section that exists,
whether that is the section of its own definition and refers to its own target, the alignment a Mach-O section
claims, the section a Mach-O relocation is filed under, whether a Mach-O link reaches the
file at all, and whether it refers to its target's own symbol.

## How it is organised

| file | content |
|---|---|
| Collections, ObjectFile | index maps, interning; files as cells, an output with a cursor, records, text |
| Decls, ArtifactModel, ArtifactCalls, Artifact | declarations and their join; the artifact as a state machine; what it holds, told from the calls; the artifact object |
| ElfFormat, ElfImage | ELF records and reader; what the writer lays out, from the builder's fields |
| ElfBuild, ElfBuilder | what each builder step does and keeps; the builder object and its writer |
| ElfClash | what clashing names do to contents, links and layout |
| ElfEmit, ElfSymbols, ElfProperties | emission of an artifact and reading it back; which symbol survives under a name; meaning of relocations, symbol order, artifacts that go wrong |
| MachFormat, MachSymbols, MachLayout | Mach-O records, packing and reader; symbol table; padding allocator |
| MachBuilder, MachRelocs, MachImage | segment builder; links to relocations; the whole file |
| MachEmit, MachEntries, MachProperties, MachPlacement, MachMeaning | emission of an artifact; which symbol stands under a name; what a reader finds; what becomes of each link; the file in the artifact's own terms |

Objects the program updates in place are classes (`Artifact`, `Elf`, `SymbolTable`,
`SegmentBuilder`, `Output`) whose methods keep the loops and the order of writes of
the original. Each is proved against functions on values, and the theorems are about
those functions. A file is a sequence of cells: a cell is a plain byte, or byte *k* of
a fixed-size record. Positions and lengths are therefore exact to the byte while the
encoding of the fields inside a record stays abstract. A panic of the original is a
result (`None`, `ok == false`, `Panicked`), never an assumption.

Premises appear only where a statement needs them. ELF `WellNamed`: section names are
distinct. Mach-O `WellNamed`: section keys are distinct. `Coherent` is not a premise on
users: it is proved of every artifact that passes the undefined-symbols check.

## Model

| member | source | states |
|---|---|---|
| Decls.AbsorbIsJoin | src/artifact/decl.rs:273-350 | `absorb` fails exactly when no declaration refines both arguments, and otherwise returns the least one that does |
| Decls.AbsorbLaws | src/artifact/decl.rs:273-350 | idempotent, commutative and associative, failure included |
| ArtifactModel.StepKeeps | src/artifact.rs:351-562 | every call, failing or not, keeps the invariant: imports are exactly the import declarations, once each and with their kind; definitions match declarations; link ends are declared and no link starts at an import |
| ArtifactModel.RunKeeps | src/artifact.rs:351-562 | the invariant after any sequence of calls |
| ArtifactModel.FailedCallChangesNothing | src/artifact.rs:351-562 | a failing call changes no declaration, import, link or definition (only the interner may grow) |
| ArtifactModel.RunExtends | src/artifact.rs:351-562 | over any run interned ids are stable, declarations only refine, a defined name never changes its declaration |
| ArtifactModel.DeclareKeepsImports | src/artifact.rs:366-399 | adding to the import list and `swap_remove` keep it exact and free of repetitions |
| ArtifactModel.SwapRemoveElements | src/artifact.rs:383-397 | `swap_remove` drops exactly the chosen element |
| ArtifactModel.DeclareAllCharacterized | src/artifact.rs:403-411 | a declaration list succeeds exactly when the declarations of each name have a common refinement, and then each name has the least one |
| ArtifactModel.OrderIndependent | src/artifact.rs:403-411 | two lists with the same members agree on success, on every final declaration and on the set of imports |
| ArtifactModel.ImportsFollowDeclarations | src/artifact.rs:293-299 | a name is listed as an import of a kind exactly when it is declared so |
| ArtifactModel.ViewIsCoherent | src/artifact.rs:300-336 | with nothing undefined, all lookups of `links` succeed; definitions and imports have distinct names, come locals first, and every link end is a definition or import with the same declaration |
| ArtifactModel.EmissionIsSafe | src/artifact.rs:300-336 | after any run with nothing undefined: each defined declaration has exactly one definition, carrying the current declaration, and the view is coherent |
| ArtifactCalls.RunMirrors | src/artifact.rs:351-562 | after any calls the containers hold exactly what the accepted calls say: the strongest declaration of each name, the contents and custom symbols of each accepted `define`, and the accepted links in order, with both names, offset and relocation |
| ArtifactCalls.DeclareOutcome | src/artifact.rs:351-401 | a declaration is refused exactly when the one in force for its name has no common refinement with it, and the error names both |
| ArtifactCalls.DefineOutcome | src/artifact.rs:460-519 | a definition is accepted exactly when a definition is declared for its name, none was accepted before and the contents suit the declaration; and the exact condition of each of the five errors |
| ArtifactCalls.LinkOutcome | src/artifact.rs:538-562 | a link is accepted exactly when both ends are declared and the first is no import; and the condition of each error |
| ArtifactCalls.DefinedIsDeclared | src/artifact.rs:460-519 | a name with an accepted definition is declared as defined from then on |
| ArtifactCalls.UndefinedIff | src/artifact.rs:566-578 | the undefined names are exactly those declared as defined without an accepted definition |
| ArtifactCalls.ViewReflects | src/artifact.rs:293-336 | after any calls, a definition is handed to the backend if and only if a `define` with that name, contents and custom symbols was accepted and its declaration is the one in force; an import if and only if an import declaration is in force; the links are the accepted ones, in order, with the declarations in force at both ends |
| Artifact.Artifact.constructor | src/artifact.rs:278-292 | a new artifact is empty and valid |
| Artifact.Artifact.FindImport | src/artifact.rs:372-391 | the search loop finds the import's position, or that there is none |
| Artifact.Artifact.Declare | src/artifact.rs:351-401 | the object does the `Declare` step, records the call and stays valid; what the step means is `ArtifactCalls.DeclareOutcome` and `RunMirrors` |
| Artifact.Artifact.Declarations | src/artifact.rs:403-411 | declares in order and stops at the first error; the calls recorded are a prefix of the list, all of it on success |
| Artifact.Artifact.Define | src/artifact.rs:460-519 | does the `Define` step, with its five errors, records the call and stays valid; what the step means is `ArtifactCalls.DefineOutcome` and `RunMirrors` |
| Artifact.Artifact.LinkWith | src/artifact.rs:538-562 | does the `Link` step, with its errors for undeclared ends and links from imports, records the call and stays valid; what the step means is `ArtifactCalls.LinkOutcome` and `RunMirrors` |
| Artifact.Artifact.UndefinedNames | src/artifact.rs:566-578 | lists exactly the declared names that are neither imports nor defined |
| Artifact.UpgradedIsListed | src/artifact.rs:383-397 | when a declaration turns from import to definition the import is listed, so the `expect` cannot fail |
| Artifact.Iterate | src/artifact.rs:300-307 | walking a definition set yields each member once, functions before data before sections |
| Artifact.Artifact.EmitAs | src/artifact.rs:587-603 | over the calls made so far: the undefined-symbols error exactly when some name awaits a definition, naming exactly those; otherwise the backend is handed exactly the accepted definitions, imports and links, and gives a file or a panic, each exactly under its condition; the file reads back as the artifact exactly when its section names do not clash, and then says of every definition, name and link what the artifact asks for |
| ObjectFile.RecordsRoundTrip | src/elf.rs:917-1037 | records written at an offset are read back |
| ObjectFile.TextRoundTrip | src/elf.rs:900-912 | NUL-terminated text reads back exactly when it contains no NUL |
| ObjectFile.Output.Seek | src/elf.rs:900-1037 | moves the cursor and writes nothing |
| ObjectFile.Output.Write | src/elf.rs:837-1037 | overwrites at the cursor, filling a gap with zeros, and advances it |
| ObjectFile.AlignUp | src/elf.rs:778-783 | the least multiple at or above the offset |
| ElfFormat.RecordSizes | src/elf.rs:784-836 | header, section, symbol and relocation records are as long as their fields |
| ElfBuilder.Elf.PushStrtab | src/elf.rs:440-449 | pushes a string without looking whether it is known; what that costs is `ElfClash.AgreesIff` |
| ElfBuilder.Elf.constructor | src/elf.rs:432-480 | the first strings and symbols, four sections counted, invariant established |
| ElfBuilder.Elf.NewString | src/elf.rs:481-492 | does the string step that `ElfBuild.StringKeeps` is about |
| ElfBuilder.Elf.AddSection | src/elf.rs:607-633 | does the section step that `ElfBuild.ContentsKeep` is about; the index is taken before an insert that may overwrite |
| ElfBuilder.Elf.AddProgbits | src/elf.rs:598-605 | the same with contents, see `ElfBuild.ContentsKeep` and `ElfBuild.CodeInserted` |
| ElfBuilder.Elf.AddSymbols | src/elf.rs:562-596 | does the symbol step that `ElfBuild.SymbolKeeps` and `ElfBuild.DefinitionKeeps` are about |
| ElfBuilder.Elf.AddDefinition | src/elf.rs:502-596 | keeps the builder invariant with the definition added to the history |
| ElfBuilder.Elf.Import | src/elf.rs:634-641 | keeps the invariant with one undefined global symbol added |
| ElfBuilder.Elf.AddReloc | src/elf.rs:738-777 | does the relocation step that `ElfBuild.RelocKeeps` is about; when it fails is `ElfClash.RelocFits` |
| ElfBuilder.Elf.Find | src/elf.rs:644-687 | symbol and section position of a link end; a successful lookup interns nothing |
| ElfBuilder.Elf.Link | src/elf.rs:642-737 | fails exactly when a lookup or the relocation match does; otherwise adds the one entry the link stands for |
| ElfBuilder.Elf.Prepare | src/elf.rs:791-810 | the extended index table is needed exactly from SHN_LORESERVE sections on, and is then counted and named |
| ElfBuilder.Elf.ComputeOffsets | src/elf.rs:805-827 | the offsets of the first pass, which `ElfImage.OffsetsOrdered` is about |
| ElfBuilder.Elf.WriteCode | src/elf.rs:858-863 | all section contents, one after another |
| ElfBuilder.Elf.WriteStrtab | src/elf.rs:900-912 | the string table, as interned |
| ElfBuilder.Elf.WriteSymtab | src/elf.rs:917-988 | special, section, then other symbols; the parallel table holds the true index of each |
| ElfBuilder.Elf.WriteRelocs | src/elf.rs:993-1009 | the relocation groups in order and a header with the right offset for each |
| ElfBuilder.Elf.AllHeaders | src/elf.rs:869-895 | the list of headers that `ElfImage.ParseWhole` reads back |
| ElfBuilder.Elf.WriteHeaders | src/elf.rs:1023-1037 | the headers at their announced offset |
| ElfBuilder.Elf.Write | src/elf.rs:784-1041 | a file exactly when the separately kept counters agree, and then it is the laid-out file: every other assertion holds for any builder state |
| ElfBuild.NewStateInv | src/elf.rs:432-480 | the new builder satisfies the invariant, whatever the artifact's name |
| ElfBuild.StringKeeps | src/elf.rs:481-492 | in every reachable state the size is that of all strings and string *i* starts right after the strings before it (unless the artifact has a table's name) |
| ElfBuild.ContentsKeep | src/elf.rs:502-560 | the *k*-th definition's header, contents and code offset are those of section 3 + *k* as long as names differ |
| ElfBuild.CodeInserted | src/elf.rs:598-605 | the code map holds the latest contents of every section; the overwritten ones are exactly what the code size counts too much |
| ElfBuild.SymbolKeeps | src/elf.rs:562-596 | in every build the symbol table holds one symbol for each name, in the order names first came up, each with the offset of its name, and under each name the symbol made last |
| ElfBuild.SurvivorsInserted | src/elf.rs:592-594 | inserting a symbol into the ordered map turns the survivors of a sequence of symbols into the survivors of the longer one: a new name comes last, a known one keeps its place and takes the new symbol |
| ElfBuild.DefinitionKeeps | src/elf.rs:502-596 | the whole invariant, section and local counts included |
| ElfBuild.RelocKeeps | src/elf.rs:738-777 | one group per patched section, holding exactly its entries in link order, with matching size, link, info and `.rela` name |
| ElfBuild.WriteKeeps | src/elf.rs:791-810 | the strings and the section that the writer adds keep the invariant |
| ElfImage.OffsetsOrdered | src/elf.rs:805-827 | the regions are in order, disjoint, and aligned where readers ask |
| ElfImage.StageLengths | src/elf.rs:858-1009 | after each stage the file ends where the first pass said the stage would end |
| ElfImage.WholeHasRegions | src/elf.rs:837-1041 | no later write destroys an earlier region; the length is the header offset plus headers times their size |
| ElfImage.SectionCountDecodes | src/elf.rs:842-872 | the count read from `e_shnum`, or from header 0 when that is 0, is the builder's count on both sides of SHN_LORESERVE |
| ElfImage.ParseWhole | src/elf.rs:837-1041 | the reader finds the headers, the symbol table and, exactly when emitted, the extended index table |
| ElfImage.GroupReads | src/elf.rs:993-1009 | each relocation header leads to exactly its group |
| ElfEmit.NameReads | src/elf.rs:900-906 | text at an offset handed out for a string is that string exactly when it has no NUL |
| ElfClash.LostIff | src/elf.rs:598-605 | no bytes are lost exactly when every contents that a later definition puts under the same section name are empty |
| ElfClash.AgreesIff | src/elf.rs:440-458 | in every build the two passes agree exactly when the artifact is not called `.strtab` or `.symtab` and no contents were overwritten |
| ElfClash.LocateAny | src/elf.rs:644-687 | every defined end of a link is found, and names an existing section exactly if it is a section or the last definition that made its symbol, or a later one, brings a new section name |
| ElfClash.RelocFits | src/elf.rs:753-775 | the `expect`s of `add_reloc` hold exactly for existing sections |
| ElfClash.LinkSucceedsIff | src/elf.rs:642-777 | in every build of a coherent artifact a link succeeds exactly if its kind is supported and it starts in an existing section |
| ElfEmit.CountMatchesIff | src/elf.rs:607-633 | the decoded section count is the number of headers in the file exactly when section names are distinct |
| ElfEmit.ParsesIff | src/elf.rs:607-633 | a reader gets through the headers of an emitted file exactly when section names are distinct |
| ElfEmit.EmitsIff | src/elf.rs:1044-1062 | with distinct section names the condition for emission is down to the name and the kinds of the links |
| ElfEmit.LinkIsExpected | src/elf.rs:642-737 | with distinct section names, the entry built through names, interner and index maps is the one defined on the artifact alone, whatever the symbol names; it fails only for an unsupported kind |
| ElfEmit.FinishedIsFaithful | src/elf.rs:784-1041 | any finished build with distinct section names reads back as its artifact, whatever the symbol names: bytes, surviving symbols with effective section indices and names, names of all sections, relocations per section, the exact number of headers, and the escape index only with a table covering all symbols |
| ElfEmit.ToBytes | src/elf.rs:1044-1062 | for every coherent artifact: success exactly under the stated condition, and a file that reads back as the artifact, has the right section count, and can be read at all, exactly when section names are distinct |
| ElfSymbols.LastMakerIff | src/elf.rs:562-594 | a function or data object makes the last symbol of its name exactly if it is global or no custom symbol has that name |
| ElfSymbols.OwnSectionIff | src/elf.rs:644-687 | for every coherent artifact, the end of a link is looked up in its definition's own section exactly if the definition keeps its symbol, and otherwise in the section of another definition that makes a symbol of that name |
| ElfSymbols.OwnFinal | src/elf.rs:562-571 | the symbol a definition keeps: global, weak or local exactly as its scope, function or object exactly as its declaration, at the start of its own section, as long as its bytes |
| ElfSymbols.ImportFinal | src/elf.rs:634-641 | an import always keeps its symbol, which is global, untyped and undefined |
| ElfSymbols.FinalSays | src/elf.rs:562-594 | every symbol that survives says what its name stands for: the import; or, by the last definition that makes a symbol of the name, the function or data object, or the place a custom section symbol gives |
| ElfSymbols.FinalNames | src/elf.rs:562-641 | a symbol survives for exactly the names that imports have or definitions make, one for each |
| ElfSymbols.BoundLocallyIff | src/elf.rs:129-191 | when the symbol that survives under a name is local, told from the artifact |
| ElfProperties.SymbolLeadsToContents | src/elf.rs:502-633 | in the file, the symbol called like a function or data object belongs to its section exactly if the definition keeps it, and then has the binding of its scope and the type of its kind, and leads, through its effective section index and that header, to exactly the bytes passed to `define` |
| ElfProperties.OneEntryPerLink | src/elf.rs:642-737 | entry *k* is the relocation of link *k*, none lost and none added |
| ElfProperties.RelocationMeaning | src/elf.rs:667-737 | link *k* is in a relocation table, at offset `at`, with the link's own number and addend if raw, an absolute address of the link's size if debug, and if automatic the PLT, GOT, relative or pointer relocation that its declarations call for; the table is that of the section that holds the bytes of `from` exactly if `from` keeps its symbol; the entry refers to the import, or to the place the target and its symbol denote, exactly if the target is an import or keeps its symbol |
| ElfProperties.SectionNameDerived | src/elf.rs:507-560 | a section is called after its definition, with the prefix that tells functions, zero-initialised, writable and read-only data apart |
| ElfProperties.FaithfulSays | src/elf.rs:502-737 | a file that reads back as its artifact says so in the artifact's own terms: type, name and bytes of every definition's section, the file and section symbols, one symbol for each name with what it stands for, and a relocation for each link |
| ElfProperties.LocalsAreFirst | src/artifact.rs:300-307 | the definitions counted as local are the first ones |
| ElfProperties.SplitIff | src/elf.rs:562-594 | symbols are local exactly below `sh_info`, if and only if every weak definition has lost its symbol to a custom one and every custom symbol is called like a function, data object or import |
| ElfProperties.SplitsIff | src/elf.rs:562-594 | with distinct symbol names that means no weak definition and no custom section symbol |
| ElfProperties.WeakBreaksSplit | src/elf.rs:562-574 | an artifact with one weak function whose file violates the split |
| ElfProperties.DerivedNamesDiffer | src/elf.rs:507-560 | derived section names of functions and data never clash |
| ElfProperties.SectionNamesClashIff | src/elf.rs:607-633 | section names are distinct if and only if no custom section is called like another definition's section |
| ElfProperties.Miscounted | src/elf.rs:607-633 | a coherent artifact that is emitted, with a wrong section count, and cannot be read |
| ElfProperties.OverwrittenText | src/elf.rs:858-863 | a coherent artifact whose overwritten contents make the writer panic |
| ElfProperties.StrandedPanics | src/elf.rs:753-758 | a coherent artifact with a link from a section that is never made, which panics |
| ElfProperties.MisfiledLink | src/elf.rs:576-594 | a coherent artifact with distinct section names whose link is filed under, and refers to, a custom section in place of the function it names |
| ElfProperties.ReservedNameBreaksLayout | src/elf.rs:440-453 | an artifact called `.strtab`, whose passes disagree |
| ElfProperties.SupportedIff | src/elf.rs:688-719 | which links the relocation match refuses |
| ElfProperties.AutoKinds | src/elf.rs:688-712 | when an automatic link goes through PLT or GOT, is relative, or is absolute of pointer size |
| MachFormat.PackRoundTrip | src/mach.rs:191-215 | unpacking recovers all five fields if and only if each fits its bits |
| MachFormat.PackInjective | src/mach.rs:191-215 | distinct fields give distinct words |
| MachFormat.RelocationReads | src/mach.rs:191-215 | address, symbol number, type, length and flags of a created relocation read back |
| MachFormat.FieldsSurvive | src/mach.rs:191-215 | for a symbol number that fits, flags and width of a created relocation read back for any type number, and four bits of the type do |
| MachFormat.RecordSizes | src/mach.rs:755-763 | header, command, section and symbol records are as long as their fields |
| MachSymbols.InsertKeeps | src/mach.rs:372-410 | symbol *i* is string *i* + 1, string offsets and size match the bytes written; inserting a known name changes nothing |
| MachSymbols.LookupExact | src/mach.rs:359-370 | `index` and `offset` return the position and section-relative offset of an inserted symbol |
| MachSymbols.LookupMissing | src/mach.rs:359-370 | and nothing for any other name |
| MachSymbols.NameReads | src/mach.rs:915-922 | text at a symbol's `n_strx` is an underscore and its name exactly when the name has no NUL |
| MachSymbols.SymbolTable.constructor | src/mach.rs:339-349 | an empty table holding the empty string |
| MachSymbols.SymbolTable.Insert | src/mach.rs:372-410 | adds a new name at the end, ignores a known one, keeps the invariant |
| MachSymbols.SymbolTable.Index | src/mach.rs:366-370 | position of the name in insertion order |
| MachSymbols.SymbolTable.Offset | src/mach.rs:359-364 | offset of the name in its section |
| MachLayout.AlignExponent | src/mach.rs:49-57 | the exponent of a power of two |
| MachLayout.AllocatorAligns | src/mach.rs:453-500 | every definition, and the section's end, lies at a multiple of the minimum; every definition at a multiple of its own alignment |
| MachLayout.AllocatorOrders | src/mach.rs:470-500 | padding is smaller than the alignment it serves |
| MachLayout.RangesDisjoint | src/mach.rs:453-500 | ranges of definitions are disjoint and in order |
| MachLayout.SectionCoversIff | src/mach.rs:453-507 | the section's exponent covers all its definitions if and only if the first needs no more than the minimum or some later definition |
| MachLayout.FirstAlignmentDropped | src/mach.rs:453-507 | a function whose alignment its section does not claim |
| MachLayout.ContentsHeld | src/mach.rs:827-868 | code, data and strings written with padding lie at the allocator's offsets |
| MachBuilder.SegmentBuilder.constructor | src/mach.rs:565-600 | an empty segment behind the headers |
| MachBuilder.SegmentBuilder.BuildSection | src/mach.rs:439-507 | the loop with look-ahead gives each definition its offset, symbol and padding, and keeps size, address and file offset together |
| MachBuilder.SegmentBuilder.Allocate | src/mach.rs:453-500 | one definition: symbol, size and padding, with all counters advanced by the same amount |
| MachBuilder.SegmentBuilder.BuildCustomSection | src/mach.rs:508-562 | one section for a custom definition, with its symbols |
| MachEmit.Partition | src/mach.rs:682-739 | definitions split by kind, each list in order |
| MachEmit.BuildSegment | src/mach.rs:565-663 | four built-in sections, then custom ones, then import symbols |
| MachEmit.WriteData | src/mach.rs:827-898 | the bytes written are the sections' contents as planned |
| MachEmit.CreateSections | src/mach.rs:266-292 | headers with the running data and relocation offsets; fails exactly when a section name exceeds 16 bytes |
| MachEmit.WriteFile | src/mach.rs:751-940 | commands, data, symbols, strings, relocations at the announced offsets |
| MachEmit.NamesFitIff | src/mach.rs:266-270 | the section names written are those of all definitions, even where keys are shared |
| MachEmit.ToBytes | src/mach.rs:1041-1046 | for every coherent artifact, success exactly when names fit and no link panics, and a file that announces one section for each distinct key; with distinct keys it is the laid-out one, whatever the symbol names |
| MachEmit.EntriesAsNamed | src/mach.rs:372-410 | with distinct, non-empty names no symbol is dropped |
| MachRelocs.Resolve | src/mach.rs:952-1035 | the lookups give the relocation, the omission or the panic defined on the list of symbols; what kind of relocation that is, `MachPlacement.PlacementIff` says |
| MachRelocs.BuildRelocations | src/mach.rs:944-1039 | each section receives exactly its relocations, in link order; fails exactly when some link panics; what they say about their links is `MachPlacement.PlacementInFile` |
| MachImage.WholeHasRegions | src/mach.rs:751-940 | all regions are where they were announced |
| MachImage.ParseWhole | src/mach.rs:751-822 | the reader recovers header, segment, sections and symbols from the file |
| MachImage.RelocationsRead | src/mach.rs:928-937 | each `reloff`/`nreloc` run is exactly that section's relocations |
| MachImage.SectionsTile | src/mach.rs:266-292 | sections follow one another in memory and in the file and fill the segment |
| MachImage.TablesTile | src/mach.rs:771-806 | data, symbols, strings and relocations follow one another |
| MachEntries.EntryAddresses | src/mach.rs:462-500 | absolute and section-relative offset of a symbol differ by its section's address |
| MachEntries.FirstStays | src/mach.rs:372-410 | whatever is inserted, the first symbol of a non-empty name is the one the table keeps |
| MachProperties.WholeIsFaithful | src/mach.rs:740-940 | the reader finds every definition's bytes at section offset plus its own offset, the symbols that survive at section address plus the same offset, their names, section names, segments and alignments, relocations and tiling, two load commands of the announced size, the string table, and a segment that is larger in memory by the zero-initialised data |
| MachProperties.FaithfulIff | src/mach.rs:751-790 | an emitted file reads back as the artifact exactly when section keys are distinct |
| MachProperties.SymbolLeadsToContents | src/mach.rs:453-507 | in the file, every function, data or string definition with a name has a symbol that leads to its bytes: address above the section's address equals distance into the section's part of the file |
| MachEntries.SymbolIff | src/mach.rs:359-370 | a link end is found in the symbol table exactly if it is not a section, or some custom symbol has its name |
| MachEntries.OwnSymbol | src/mach.rs:372-410 | a function or data object always keeps its symbol, with its own section and offset |
| MachEntries.ImportIff | src/mach.rs:372-410 | an import keeps its symbol exactly if no custom symbol has its name |
| MachEntries.CustomStays | src/mach.rs:508-562 | a name that only custom section symbols have stands for the first of them, at the offset it was given |
| MachPlacement.OwnTargetIff | src/mach.rs:372-410 | the symbol found for a link end is its own exactly if the end is not a section, and not an import with a custom symbol of its name |
| MachPlacement.FateOfLink | src/mach.rs:952-1037 | whatever the names, a link panics, is dropped or becomes one relocation, each exactly under a condition on the artifact |
| MachPlacement.NoPanicsIff | src/mach.rs:944-1039 | no link panics exactly when none is refused |
| MachPlacement.PlacementIff | src/mach.rs:952-1035 | for every kind of link that is neither refused nor dropped, whatever the symbol names: one relocation, the exact condition for it to patch the bytes of `from`, the exact condition for it to refer to the target's own symbol, and its kind: a call, a load, a load through the GOT or an address exactly as the declarations at its ends, the number of a raw link modulo 16, an address of a debug link's size; pc-relative exactly from functions, or for non-zero raw numbers |
| MachPlacement.RunHolds | src/mach.rs:1007-1033 | each link has its place in the run of its section, in link order |
| MachPlacement.RunsAreLinks | src/mach.rs:928-937 | in the file, links that are not dropped have a place in a run, dropped ones have none, and every place has exactly one link |
| MachPlacement.PlacementInFile | src/mach.rs:952-1035 | in the file, link *k* is in a run, its word unpacks to that kind, and it patches the first byte of `from` plus `at`, and refers to the target's own symbol, exactly under those conditions |
| MachPlacement.StringRelocationMisfiled | src/mach.rs:1030-1034 | a string with a link whose relocation is filed under `__data` |
| MachPlacement.SectionLinkDropped | src/mach.rs:1025-1037 | a custom section with a raw link that leaves no trace in the file |
| MachPlacement.ImportReplaced | src/mach.rs:372-410 | an artifact whose link to an import is bound to a custom symbol |
| MachPlacement.KeysClashIff | src/mach.rs:508-562 | section keys are distinct exactly if no custom section is called like a built-in one |
| MachMeaning.SectionIsSaid | src/mach.rs:439-663 | in the file, every definition lies in the section and segment that its kind calls for, with its bytes, aligned as asked and to 16 bytes for functions and 8 for data; a custom section holds one definition, is claimed to be aligned as asked, and has its `.debug` prefix renamed |
| MachMeaning.HomesApart | src/mach.rs:453-500 | definitions of one section do not overlap |
| MachMeaning.ClaimsAreSaid | src/mach.rs:453-507 | the alignment a built-in section claims in the file is the least that covers its minimum and every definition but the first |
| MachMeaning.PaddingSays | src/mach.rs:827-879 | every byte of a built-in section that no definition covers is 0xcc in text and 0xaa elsewhere |
| MachMeaning.BssGrows | src/mach.rs:682-739 | the extra memory of the segment is the sum of the sizes of zero-initialised data |
| MachMeaning.EntrySays | src/mach.rs:372-507 | every symbol in the file says what its name stands for: the place of the function or data object, external exactly if global; failing that, the place of the first custom symbol; failing that, that it is undefined |
| MachMeaning.NamesBuilt | src/mach.rs:372-410 | the symbol table has exactly the non-empty names of functions, data, custom symbols and imports |
| MachMeaning.FaithfulSays | src/mach.rs:565-1039 | a file that reads back as its artifact says so in the artifact's own terms: every definition's section, the claimed alignments, one symbol for each name, and a relocation for each link that is not dropped |

## Where code and documentation disagree

The model follows the code.

* `SymbolTable::offset` is documented as an offset in the segment; it returns the
  offset in the section (src/mach.rs:358-364).
* `sh_size` of a relocation section is described as a number of relocations; it is a
  number of bytes (src/elf.rs:747-748).
* Weak definitions are treated as local when they are ordered and counted, although
  their symbols bind weakly (src/artifact.rs:499, src/elf.rs:572).

## Left out

- Real file output, seek errors, and `write`/`write_as`: the output is a sequence with a cursor that zero-fills gaps.
- Field encoding and byte order inside headers, symbols, sections and relocations: records of fixed size stand for them (the Mach-O `r_info` word is modelled bit by bit).
- Integer widths: counters and offsets are unbounded, so truncation of offsets to 32 bits and overflow are not captured; the 16-bit section fields, the 24-bit symbol number and the 8-bit raw relocation type are.
- Text encoding: a name is a sequence of characters of one byte each.
- Section flags, section alignment fields in ELF, visibility, machine and CPU tables, OS ABI.
- Memory size and addresses of zero-initialised data: the code gives ELF such sections size 0, and lets Mach-O ones share an offset.
- The exact order inside the definition sets: any enumeration is allowed that puts functions before data before sections; locals come before the rest as in the code.
- The order of names in the undefined-symbols error.
- `ArtifactBuilder`, fluent setters, `declare_with`, debug printing, error texts, sample programs.
- Alignments that are not powers of two: the type of declarations excludes them; the original rejects them with a debug assertion only, and a Mach-O build panics on them later.
- MachRelocs.BuildRelocations: a raw relocation number above 255 is truncated as in a release build; the debug-only assertion on it is not modelled.
- ElfBuilder.Elf.AddDefinition: a zero-initialised function, on which the original panics, is excluded; `define` rejects it.
- ElfEmit.ToBytes: for an emitted artifact with clashing section names it states that the file cannot be read, but not what its bytes are.
- MachEmit.ToBytes: for an emitted artifact with a custom section called like a built-in one it states how many sections are announced, but not where their contents lie.
- MachPlacement.PlacementIff: assumes distinct section keys, because with repeated ones the section that a relocation is filed under no longer holds one definition's bytes; symbol number and kind are stated for symbol numbers that fit their 24 bits, because larger ones spill into the other fields.
- MachPlacement.RunsAreLinks: assumes distinct section keys, for the same reason.
- MachPlacement.PlacementInFile: assumes distinct section keys, for the same reason.

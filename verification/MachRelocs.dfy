/** How a link becomes a Mach-O relocation. */
module MachRelocs {
  import opened Collections
  import opened Decls
  import opened MachFormat
  import opened MachSymbols
  import opened MachLayout
  import opened MachBuilder

  const X86_64_RELOC_UNSIGNED: nat := 0
  const X86_64_RELOC_SIGNED: nat := 1
  const X86_64_RELOC_BRANCH: nat := 2
  const X86_64_RELOC_GOT_LOAD: nat := 3
  const R_ABS: nat := 0

  /** Whether an automatic relocation is absolute, and its type; `None` panics. */
  function AutoKind(from: Decl, to: Decl): Option<(bool, nat)> {
    if from.IsSection() || to.IsSection() then None
    else
      match from
      case Defined(DataDecl(_, _, _, _, _)) => Some((true, X86_64_RELOC_UNSIGNED))
      case Defined(FunctionDecl(_, _, _)) =>
        (match to
         case Defined(FunctionDecl(_, _, _)) => Some((false, X86_64_RELOC_BRANCH))
         case Import(FunctionImport) => Some((false, X86_64_RELOC_BRANCH))
         case Defined(DataDecl(_, _, _, _, _)) => Some((false, X86_64_RELOC_SIGNED))
         case Import(DataImport) => Some((false, X86_64_RELOC_GOT_LOAD))
         case _ => None)
      case _ => None
  }

  /** A relocation added to a section, a link passed over, or a panic. */
  datatype Effect = Patch(section: nat, reloc: RelocationInfo) | Skipped | Panics

  /** Absolute relocations all go to the data section, the others to text. */
  function Placed(es: seq<Entry>, l: LinkAndDecl, absolute: bool, typ: nat): Effect {
    var to := IndexOf(EntryNames(es), l.to.name);
    if l.from.name in EntryNames(es) && to.Some? then
      match CreateRelocation(to.value, RelativeOf(es, l.from.name) + l.at, absolute, 0, typ)
      case Some(r) => Patch(if absolute then DataPart.Index() else TextPart.Index(), r)
      case None => Panics
    else Skipped
  }

  function EffectOf(keys: seq<string>, es: seq<Entry>, l: LinkAndDecl): Effect {
    match l.reloc
    case Auto =>
      (match AutoKind(l.from.decl, l.to.decl)
       case None => Panics
       case Some((absolute, typ)) => Placed(es, l, absolute, typ))
    case Raw(reloc, addend) =>
      if addend != 0 then Panics
      else Placed(es, l, reloc % 0x100 == R_ABS, reloc % 0x100)
    case Debug(size, _) =>
      if l.to.decl.IsSection() then Skipped
      else
        match IndexOf(EntryNames(es), l.to.name)
        case None => Skipped
        case Some(to) =>
          match IndexOf(keys, l.from.name)
          case None => Panics
          case Some(j) =>
            match CreateRelocation(to, l.at, true, size, X86_64_RELOC_UNSIGNED)
            case Some(r) => Patch(j, r)
            case None => Panics
  }

  ghost predicate NoPanics(keys: seq<string>, es: seq<Entry>, links: seq<LinkAndDecl>) {
    forall k :: 0 <= k < |links| ==> !EffectOf(keys, es, links[k]).Panics?
  }

  /** The relocations of section `j`, in link order. */
  function RelocsOf(keys: seq<string>, es: seq<Entry>, links: seq<LinkAndDecl>, j: nat): seq<RelocationInfo> {
    if links == [] then []
    else
      var front := RelocsOf(keys, es, links[..|links| - 1], j);
      match EffectOf(keys, es, links[|links| - 1])
      case Patch(section, r) => if section == j then front + [r] else front
      case _ => front
  }

  lemma RelocsSnoc(keys: seq<string>, es: seq<Entry>, links: seq<LinkAndDecl>, k: nat, j: nat)
    requires k < |links|
    ensures RelocsOf(keys, es, links[..k + 1], j) ==
            var x := EffectOf(keys, es, links[k]);
            RelocsOf(keys, es, links[..k], j) + (if x.Patch? && x.section == j then [x.reloc] else [])
  {
    assert links[..k + 1][..k] == links[..k];
  }

  ghost predicate Relocated(was: seq<SectionBuilder>, now: seq<SectionBuilder>, keys: seq<string>, es: seq<Entry>,
                            links: seq<LinkAndDecl>) {
    && |now| == |was|
    && forall j :: 0 <= j < |was| ==>
       now[j] == was[j].(relocations := was[j].relocations + RelocsOf(keys, es, links, j))
  }

  lemma RelocatedStep(was: seq<SectionBuilder>, now: seq<SectionBuilder>, keys: seq<string>, es: seq<Entry>,
                      links: seq<LinkAndDecl>, k: nat)
    requires k < |links| && Relocated(was, now, keys, es, links[..k])
    ensures var x := EffectOf(keys, es, links[k]);
            && (x.Skipped? ==> Relocated(was, now, keys, es, links[..k + 1]))
            && (x.Patch? && x.section < |now| ==>
                  Relocated(was,
                            now[x.section := now[x.section].(relocations := now[x.section].relocations + [x.reloc])],
                            keys, es, links[..k + 1]))
  {
    hide EffectOf, RelocsOf;
    forall j | 0 <= j < |was|
      ensures RelocsOf(keys, es, links[..k + 1], j) ==
              var x := EffectOf(keys, es, links[k]);
              RelocsOf(keys, es, links[..k], j) + (if x.Patch? && x.section == j then [x.reloc] else [])
    {
      RelocsSnoc(keys, es, links, k, j);
    }
  }

  /** `build_relocations`; `ok` is false where the original panics. */
  method BuildRelocations(segment: SegmentBuilder, links: seq<LinkAndDecl>, symtab: SymbolTable) returns (ok: bool)
    requires symtab.Valid() && segment.sections.Valid()
    requires |segment.sections.keys| >= 2 && segment.sections.keys[0] == "__text"
    requires segment.sections.keys[1] == "__data"
    modifies segment`sections
    ensures segment.sections.Valid() && segment.sections.keys == old(segment.sections.keys)
    ensures ok <==> NoPanics(old(segment.sections.keys), symtab.entries, links)
    ensures ok ==>
            Relocated(old(segment.sections.values), segment.sections.values, segment.sections.keys, symtab.entries,
                      links)
  {
    hide Inv, RelocsOf, CreateRelocation, AutoKind, RelativeOf, IndexFor, OffsetFor;
    ghost var was := segment.sections.values;
    var keys := segment.sections.keys;
    ghost var es := symtab.entries;
    NothingRelocated(was, keys, es, links);
    for k := 0 to |links|
      invariant segment.sections.keys == keys && segment.sections.Valid()
      invariant NoPanics(keys, es, links[..k])
      invariant Relocated(was, segment.sections.values, keys, es, links[..k])
    {
      RelocatedStep(was, segment.sections.values, keys, es, links, k);
      var x := Resolve(keys, symtab, links[k]);
      match x {
        case Panics =>
          assert links[k] == links[..k + 1][k];
          return false;
        case Skipped =>
        case Patch(section, r) =>
          EffectInRange(keys, es, links[k]);
          var b := segment.sections.values[section];
          segment.sections := IndexMap(keys,
                                       segment.sections.values[section := b.(relocations := b.relocations + [r])]);
      }
    }
    assert links[..|links|] == links;
    ok := true;
  }

  lemma NothingRelocated(was: seq<SectionBuilder>, keys: seq<string>, es: seq<Entry>, links: seq<LinkAndDecl>)
    ensures Relocated(was, was, keys, es, links[..0])
  {
  }

  lemma EffectInRange(keys: seq<string>, es: seq<Entry>, l: LinkAndDecl)
    requires |keys| >= 2
    ensures EffectOf(keys, es, l).Patch? ==> EffectOf(keys, es, l).section < |keys|
  {
  }

  /** What one link does, by looking its endpoints up. */
  method Resolve(keys: seq<string>, symtab: SymbolTable, l: LinkAndDecl) returns (x: Effect)
    requires symtab.Valid()
    ensures x == EffectOf(keys, symtab.entries, l)
  {
    hide Inv, CreateRelocation, RelativeOf, IndexFor, OffsetFor;
    var absolute, typ;
    match l.reloc {
      case Auto =>
        var kind := AutoKind(l.from.decl, l.to.decl);
        if kind.None? {
          return Panics;
        }
        absolute, typ := kind.value.0, kind.value.1;
      case Raw(reloc, addend) =>
        if addend != 0 {
          return Panics;
        }
        absolute, typ := reloc % 0x100 == R_ABS, reloc % 0x100;
      case Debug(size, _) =>
        if l.to.decl.IsSection() {
          return Skipped;
        }
        var to := symtab.Index(l.to.name);
        if to.None? {
          return Skipped;
        }
        var j := IndexOf(keys, l.from.name);
        var r := CreateRelocation(to.value, l.at, true, size, X86_64_RELOC_UNSIGNED);
        if j.None? || r.None? {
          return Panics;
        }
        return Patch(j.value, r.value);
    }
    var base := symtab.Offset(l.from.name);
    var to := symtab.Index(l.to.name);
    if base.Some? && to.Some? {
      var r := CreateRelocation(to.value, base.value + l.at, absolute, 0, typ);
      if r.None? {
        return Panics;
      }
      x := Patch(if absolute then 1 else 0, r.value);
    } else {
      x := Skipped;
    }
  }
}

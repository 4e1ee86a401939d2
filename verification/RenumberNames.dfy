/**
 packages/wasi-pnpm/names.py: function names of one module, moved to the indices they have in
 an instrumented copy of it, and the copy without its own names.
 */
module RenumberNames {
  import opened Bytes
  import opened WasmSections
  import opened NameMaps
  import Split = SplitNames
  import Leb
  import Utf8

  // ----- What `parse` gives -----

  /** An import: whether it is a function, its two names, and its signature, or its bytes. */
  datatype Import = Import(func: bool, mod: seq<byte>, field: seq<byte>, desc: seq<byte>)

  datatype Module = Module(imports: seq<Import>, funcTypes: seq<seq<byte>>, globals: nat, datas: nat,
                           names: Option<seq<byte>>, exports: map<seq<byte>, nat>)

  datatype Problem = NoNameSection | BadFront | OtherImports | Differs | Malformed | OutOfRange
                   | TypeDiffers(index: nat) | NoFunctionNames | WrongExport(name: seq<byte>) | FewExports

  function FuncImports(xs: seq<Import>): seq<Import> {
    if xs == [] then [] else (if xs[0].func then [xs[0]] else []) + FuncImports(xs[1..])
  }

  function Descs(xs: seq<Import>): (r: seq<seq<byte>>)
    ensures |r| == |xs|
  {
    seq(|xs|, i requires 0 <= i < |xs| => xs[i].desc)
  }

  /** The signatures of all functions, imported ones first. */
  function Signatures(m: Module): seq<seq<byte>> {
    Descs(FuncImports(m.imports)) + m.funcTypes
  }

  function Delta(linked: Module, inst: Module): int {
    |FuncImports(inst.imports)| - |FuncImports(linked.imports)|
  }

  // pnpm_atomic
  const ATOMIC: seq<byte> := [112, 110, 112, 109, 95, 97, 116, 111, 109, 105, 99]
  const DOT: byte := 46

  predicate AllAtomic(xs: seq<Import>) {
    forall k :: 0 <= k < |xs| ==> xs[k].func && xs[k].mod == ATOMIC
  }

  /** The checks before any name is read. */
  function Mismatch(linked: Module, inst: Module): Option<Problem> {
    var d := Delta(linked, inst);
    if linked.names.None? then Some(NoNameSection)
    else if d < 0 || d > |inst.imports| || !AllAtomic(inst.imports[..d]) then Some(BadFront)
    else if inst.imports[d..] != linked.imports then Some(OtherImports)
    else if inst.funcTypes != linked.funcTypes || inst.globals != linked.globals || inst.datas != linked.datas then
      Some(Differs)
    else None
  }

  // ----- Moving the names -----

  /** Every entry moved by `d`, provided its function keeps its type. */
  function Moved(es: seq<Entry>, d: nat, from: seq<seq<byte>>, to: seq<seq<byte>>): Result<seq<Entry>, Problem> {
    if es == [] then Ok([])
    else
      var (index, text) := es[0];
      if index >= |from| || index + d >= |to| then Err(OutOfRange)
      else if from[index] != to[index + d] then Err(TypeDiffers(index))
      else
        match Moved(es[1..], d, from, to)
        case Err(p) => Err(p)
        case Ok(more) => Ok([(index + d, text)] + more)
  }

  /** The names of the added imports. */
  function FrontNames(added: seq<Import>): (r: seq<Entry>)
    ensures |r| == |added|
  {
    seq(|added|, i requires 0 <= i < |added| => (i, ATOMIC + [DOT] + added[i].field))
  }

  datatype Kept = Kept(subsections: seq<Subsection>, functions: nat)

  /** What is kept of one subsection. */
  function Keep(k: Kept, x: Subsection, added: seq<Import>, from: seq<seq<byte>>, to: seq<seq<byte>>):
    Result<Kept, Problem>
  {
    if x.0 == 1 then
      match NameMap(x.1)
      case None => Err(Malformed)
      case Some(es) =>
        match Moved(es, |added|, from, to)
        case Err(p) => Err(p)
        case Ok(moved) => Ok(Kept(k.subsections + [(1, EncodeMap(FrontNames(added) + moved))], |moved|))
    else if x.0 == 7 || x.0 == 9 then Ok(k.(subsections := k.subsections + [x]))
    else Ok(k)
  }

  function KeepAll(k: Kept, xs: seq<Subsection>, added: seq<Import>, from: seq<seq<byte>>, to: seq<seq<byte>>):
    Result<Kept, Problem>
    decreases |xs|
  {
    if xs == [] then Ok(k)
    else
      match Keep(k, xs[0], added, from, to)
      case Err(p) => Err(p)
      case Ok(more) => KeepAll(more, xs[1..], added, from, to)
  }

  // ----- The exports -----

  // _start, malloc, free, wasi_thread_start, __wasm_init_tls
  const EXPORTS: seq<seq<byte>> := [
    [95, 115, 116, 97, 114, 116],
    [109, 97, 108, 108, 111, 99],
    [102, 114, 101, 101],
    [119, 97, 115, 105, 95, 116, 104, 114, 101, 97, 100, 95, 115, 116, 97, 114, 116],
    [95, 95, 119, 97, 115, 109, 95, 105, 110, 105, 116, 95, 116, 108, 115]]

  /** `dict(entries).get(index)`: a later entry for the same index wins. */
  function NameOf(es: seq<Entry>, index: nat): Option<seq<byte>> {
    if es == [] then None
    else if es[|es| - 1].0 == index then Some(es[|es| - 1].1)
    else NameOf(es[..|es| - 1], index)
  }

  /** How many of the exports carry their own names, or the first that does not. */
  function CheckExports(names: seq<seq<byte>>, exports: map<seq<byte>, nat>, es: seq<Entry>): Result<nat, Problem> {
    if names == [] then Ok(0)
    else if names[0] in exports && NameOf(es, exports[names[0]]) != Some(names[0]) then Err(WrongExport(names[0]))
    else
      match CheckExports(names[1..], exports, es)
      case Err(p) => Err(p)
      case Ok(n) => Ok(n + if names[0] in exports then 1 else 0)
  }

  /** `dict(kept)[1]`. */
  function LastFunctions(xs: seq<Subsection>): Option<seq<byte>> {
    if xs == [] then None
    else if xs[|xs| - 1].0 == 1 then Some(xs[|xs| - 1].1)
    else LastFunctions(xs[..|xs| - 1])
  }

  /** `main`, between the two parsed modules and the payload it writes. */
  function Renumber(linked: Module, inst: Module): Result<seq<byte>, Problem> {
    match Mismatch(linked, inst)
    case Some(p) => Err(p)
    case None =>
      match Subsections(linked.names.value)
      case None => Err(Malformed)
      case Some(xs) =>
        match KeepAll(Kept([], 0), xs, Added(linked, inst), Signatures(linked), Signatures(inst))
        case Err(p) => Err(p)
        case Ok(k) =>
          match LastFunctions(k.subsections)
          case None => Err(NoFunctionNames)
          case Some(body) =>
            if k.functions == 0 then Err(NoFunctionNames)
            else
              match NameMap(body)
              case None => Err(Malformed)
              case Some(final) =>
                match CheckExports(EXPORTS, inst.exports, final)
                case Err(p) => Err(p)
                case Ok(checked) => if checked < 3 then Err(FewExports) else Ok(Join(k.subsections))
  }

  function Added(linked: Module, inst: Module): seq<Import>
    requires Mismatch(linked, inst).None?
  {
    inst.imports[..Delta(linked, inst)]
  }

  // ----- The checks -----

  /** The script goes on exactly if the two modules belong together: LINKED has names, the
      INSTRUMENTED imports are LINKED's behind new functions of the module `pnpm_atomic`, and the
      types of the defined functions and the counts of globals and data segments are the same. */
  lemma MismatchExact(linked: Module, inst: Module)
    ensures Mismatch(linked, inst).None? <==>
            && linked.names.Some? && inst.funcTypes == linked.funcTypes
            && inst.globals == linked.globals && inst.datas == linked.datas
            && exists added :: AddedInFront(added, linked, inst)
  {
    hide FuncImports, AllAtomic, AddedInFront;
    if Mismatch(linked, inst).None? {
      AddedFound(linked, inst);
    }
    if added :| AddedInFront(added, linked, inst) {
      AddedFits(added, linked, inst);
    }
  }

  lemma AddedFound(linked: Module, inst: Module)
    requires var d := Delta(linked, inst);
             0 <= d <= |inst.imports| && AllAtomic(inst.imports[..d]) && inst.imports[d..] == linked.imports
    ensures AddedInFront(inst.imports[..Delta(linked, inst)], linked, inst)
  {
    hide FuncImports;
    var d := Delta(linked, inst);
    assert inst.imports == inst.imports[..d] + inst.imports[d..];
  }

  lemma AddedFits(added: seq<Import>, linked: Module, inst: Module)
    requires AddedInFront(added, linked, inst)
    ensures Delta(linked, inst) == |added| <= |inst.imports|
    ensures AllAtomic(inst.imports[..|added|]) && inst.imports[|added|..] == linked.imports
  {
    hide FuncImports;
    FuncImportsAppend(added, linked.imports);
    assert AllAtomic(added);
    AllFunctions(added);
    assert inst.imports[..|added|] == added && inst.imports[|added|..] == linked.imports;
  }

  ghost predicate AddedInFront(added: seq<Import>, linked: Module, inst: Module) {
    && inst.imports == added + linked.imports
    && forall k :: 0 <= k < |added| ==>
         added[k].func && added[k].mod == [112, 110, 112, 109, 95, 97, 116, 111, 109, 105, 99]
  }

  // ----- The names are right -----

  lemma FuncImportsFirst(x: Import, xs: seq<Import>)
    ensures FuncImports([x] + xs) == (if x.func then [x] else []) + FuncImports(xs)
  {
  }

  lemma {:induction false} FuncImportsAppend(a: seq<Import>, b: seq<Import>)
    ensures FuncImports(a + b) == FuncImports(a) + FuncImports(b)
  {
    if a == [] {
      assert a + b == b;
    } else {
      FuncImportsFirst(a[0], a[1..]);
      FuncImportsFirst(a[0], a[1..] + b);
      assert a == [a[0]] + a[1..] && a + b == [a[0]] + (a[1..] + b);
      hide FuncImports;
      FuncImportsAppend(a[1..], b);
    }
  }

  lemma {:induction false} AllFunctions(xs: seq<Import>)
    requires AllAtomic(xs)
    ensures FuncImports(xs) == xs
  {
    if xs != [] {
      AllFunctions(xs[1..]);
    }
  }

  /** Once the imports and the defined functions agree, every function has the same type at
      its index moved by the number of added imports: the check of the types of named
      functions never fails. */
  lemma TypesShift(linked: Module, inst: Module, index: nat)
    requires Mismatch(linked, inst).None? && index < |Signatures(linked)|
    ensures var d := Delta(linked, inst);
            0 <= d && |Signatures(inst)| == |Signatures(linked)| + d
            && Signatures(inst)[index + d] == Signatures(linked)[index]
  {
    hide FuncImports, AllAtomic;
    var d := Delta(linked, inst);
    var lf, nf := FuncImports(linked.imports), FuncImports(inst.imports);
    ImportsShift(linked, inst);
    if index < |lf| {
      assert nf[index + d] == lf[index];
    }
  }

  lemma ImportsShift(linked: Module, inst: Module)
    requires Mismatch(linked, inst).None?
    ensures var d := Delta(linked, inst);
            FuncImports(inst.imports) == inst.imports[..d] + FuncImports(linked.imports)
  {
    var front := inst.imports[..Delta(linked, inst)];
    assert inst.imports == front + linked.imports;
    FuncImportsAppend(front, linked.imports);
    AllFunctions(front);
  }

  predicate InRange(es: seq<Entry>, n: nat) {
    forall k :: 0 <= k < |es| ==> es[k].0 < n
  }

  /** Every index moved by `d`. */
  function Shift(es: seq<Entry>, d: nat): (r: seq<Entry>)
    ensures |r| == |es|
  {
    seq(|es|, i requires 0 <= i < |es| => (es[i].0 + d, es[i].1))
  }

  /** Moving the names fails only on an index that is no function. */
  lemma {:induction false} MovesAll(linked: Module, inst: Module, es: seq<Entry>)
    requires Mismatch(linked, inst).None?
    ensures 0 <= Delta(linked, inst)
    ensures Moved(es, Delta(linked, inst), Signatures(linked), Signatures(inst))
            == if InRange(es, |Signatures(linked)|) then Ok(Shift(es, Delta(linked, inst))) else Err(OutOfRange)
  {
    hide Signatures;
    var n := |Signatures(linked)|;
    if es != [] {
      var d := Delta(linked, inst);
      MovesAll(linked, inst, es[1..]);
      if es[0].0 < n {
        TypesShift(linked, inst, es[0].0);
        assert InRange(es, n) <==> InRange(es[1..], n);
        assert Shift(es, d) == [(es[0].0 + d, es[0].1)] + Shift(es[1..], d);
      }
    }
  }

  /** The subsections that must come out, in their order. */
  function Wanted(xs: seq<Subsection>, front: seq<Entry>, d: nat): Option<seq<Subsection>> {
    if xs == [] then Some([])
    else
      match Wanted(xs[1..], front, d)
      case None => None
      case Some(more) =>
        if xs[0].0 == 1 then
          match NameMap(xs[0].1)
          case None => None
          case Some(es) => Some([(1, EncodeMap(front + Shift(es, d)))] + more)
        else if xs[0].0 == 7 || xs[0].0 == 9 then Some([xs[0]] + more)
        else Some(more)
  }

  lemma {:induction false} KeepsWanted(linked: Module, inst: Module, k: Kept, xs: seq<Subsection>)
    requires Mismatch(linked, inst).None?
    requires KeepAll(k, xs, Added(linked, inst), Signatures(linked), Signatures(inst)).Ok?
    ensures 0 <= Delta(linked, inst) == |Added(linked, inst)|
    ensures var kept := KeepAll(k, xs, Added(linked, inst), Signatures(linked), Signatures(inst)).value;
            var wanted := Wanted(xs, FrontNames(Added(linked, inst)), Delta(linked, inst));
            wanted.Some? && kept.subsections == k.subsections + wanted.value
    decreases |xs|
  {
    hide Signatures, NameMap, EncodeMap, FrontNames, Moved, Shift;
    if xs != [] {
      var more := Keep(k, xs[0], Added(linked, inst), Signatures(linked), Signatures(inst)).value;
      KeepsWanted(linked, inst, more, xs[1..]);
      if xs[0].0 == 1 {
        MovesAll(linked, inst, NameMap(xs[0].1).value);
      }
    }
  }

  /** The payload that is written decodes to LINKED's own subsections: each function map with
      the added imports in front and every index moved by their number, the global and data
      segment names as they were, and nothing else. */
  lemma NamesRight(linked: Module, inst: Module)
    requires Renumber(linked, inst).Ok?
    ensures Mismatch(linked, inst).None? && 0 <= Delta(linked, inst)
    ensures var xs := Subsections(linked.names.value);
            && xs.Some?
            && Wanted(xs.value, FrontNames(Added(linked, inst)), Delta(linked, inst)).Some?
            && Subsections(Renumber(linked, inst).value)
               == Wanted(xs.value, FrontNames(Added(linked, inst)), Delta(linked, inst))
  {
    hide Signatures, Wanted, KeepAll, FrontNames, Subsections, CheckExports, LastFunctions;
    var xs := Subsections(linked.names.value).value;
    KeepsWanted(linked, inst, Kept([], 0), xs);
    var wanted := Wanted(xs, FrontNames(Added(linked, inst)), Delta(linked, inst)).value;
    assert [] + wanted == wanted;
    SubsectionsRoundTrip(wanted);
  }

  /** The k-th entry is the last for its index. */
  predicate LastFor(es: seq<Entry>, index: nat, k: nat) {
    k < |es| && es[k].0 == index && forall j :: k < j < |es| ==> es[j].0 != index
  }

  /** The last entry for an index names it. */
  lemma {:induction false} NameOfExact(es: seq<Entry>, index: nat)
    ensures NameOf(es, index).None? <==> forall k :: 0 <= k < |es| ==> es[k].0 != index
    ensures forall k: nat :: LastFor(es, index, k) ==> NameOf(es, index) == Some(es[k].1)
  {
    if es != [] {
      var last := |es| - 1;
      var front := es[..last];
      NameOfExact(front, index);
      assert forall k :: 0 <= k < last ==> front[k] == es[k];
      assert forall k :: 0 <= k < last ==> es[k] == front[k];
      forall k: nat | LastFor(es, index, k) ensures NameOf(es, index) == Some(es[k].1) {
        if k < last {
          assert LastFor(front, index, k);
        }
      }
    }
  }

  /** The last subsection of kind 1 holds the function names. */
  lemma {:induction false} LastFunctionsExact(xs: seq<Subsection>)
    ensures LastFunctions(xs).None? <==> forall k :: 0 <= k < |xs| ==> xs[k].0 != 1
    ensures LastFunctions(xs).Some? ==>
              exists k :: 0 <= k < |xs| && xs[k] == (1, LastFunctions(xs).value) && forall j :: k < j < |xs| ==> xs[j].0 != 1
  {
    if xs != [] {
      var last := |xs| - 1;
      LastFunctionsExact(xs[..last]);
      if xs[last].0 == 1 {
        assert xs[last] == (1, LastFunctions(xs).value);
      } else {
        assert forall k :: 0 <= k < last ==> xs[..last][k] == xs[k];
      }
    }
  }

  /** The names that are exported. */
  function Exported(names: seq<seq<byte>>, exports: map<seq<byte>, nat>): seq<seq<byte>> {
    if names == [] then []
    else (if names[0] in exports then [names[0]] else []) + Exported(names[1..], exports)
  }

  lemma {:induction false} Checked(names: seq<seq<byte>>, exports: map<seq<byte>, nat>, es: seq<Entry>)
    ensures var r := CheckExports(names, exports, es);
            r.Ok? <==> forall k :: 0 <= k < |names| && names[k] in exports ==> NameOf(es, exports[names[k]]) == Some(names[k])
    ensures var r := CheckExports(names, exports, es); r.Ok? ==> r.value == |Exported(names, exports)|
  {
    hide NameOf;
    if names != [] {
      Checked(names[1..], exports, es);
      assert forall k :: 1 <= k < |names| ==> names[k] == names[1..][k - 1];
      assert forall k :: 0 <= k < |names| - 1 ==> names[1..][k] == names[k + 1];
    }
  }

  /** By the last function map of a payload, every one of the five C functions that the module
      exports carries its own name, and at least three of them are exported. */
  predicate NamesExports(payload: seq<byte>, exports: map<seq<byte>, nat>) {
    var xs := Subsections(payload);
    && xs.Some? && LastFunctions(xs.value).Some?
    && var es := NameMap(LastFunctions(xs.value).value);
       && es.Some? && |Exported(EXPORTS, exports)| >= 3
       && forall k :: 0 <= k < |EXPORTS| && EXPORTS[k] in exports ==>
            NameOf(es.value, exports[EXPORTS[k]]) == Some(EXPORTS[k])
  }

  lemma ExportsNamed(linked: Module, inst: Module)
    requires Renumber(linked, inst).Ok?
    ensures NamesExports(Renumber(linked, inst).value, inst.exports)
  {
    hide Signatures, Wanted, KeepAll, FrontNames, Subsections, CheckExports, LastFunctions, NameMap, Exported, NameOf;
    var xs := Subsections(linked.names.value).value;
    KeepsWanted(linked, inst, Kept([], 0), xs);
    var wanted := Wanted(xs, FrontNames(Added(linked, inst)), Delta(linked, inst)).value;
    assert [] + wanted == wanted;
    SubsectionsRoundTrip(wanted);
    var final := NameMap(LastFunctions(wanted).value).value;
    Checked(EXPORTS, inst.exports, final);
  }

  /** What a written function map says: the imports' own names, and at every moved index the
      name it had before. */
  lemma WrittenMap(es: seq<Entry>, added: seq<Import>)
    ensures NameMap(EncodeMap(FrontNames(added) + Shift(es, |added|))) == Some(FrontNames(added) + Shift(es, |added|))
    ensures forall i :: 0 <= i < |added| ==>
              (FrontNames(added) + Shift(es, |added|))[i] == (i, ATOMIC + [DOT] + added[i].field)
    ensures forall k :: 0 <= k < |es| ==>
              (FrontNames(added) + Shift(es, |added|))[|added| + k] == (es[k].0 + |added|, es[k].1)
  {
    NameMapRoundTrip(FrontNames(added) + Shift(es, |added|));
  }

  // ----- The loops -----

  function Following<T, E>(xs: seq<T>, r: Result<seq<T>, E>): Result<seq<T>, E> {
    match r
    case Err(e) => Err(e)
    case Ok(more) => Ok(xs + more)
  }

  lemma MoveStep(out: seq<Entry>, es: seq<Entry>, d: nat, from: seq<seq<byte>>, to: seq<seq<byte>>)
    requires es != [] && es[0].0 < |from| && es[0].0 + d < |to| && from[es[0].0] == to[es[0].0 + d]
    ensures Following(out, Moved(es, d, from, to))
            == Following(out + [(es[0].0 + d, es[0].1)], Moved(es[1..], d, from, to))
  {
    var r := Moved(es[1..], d, from, to);
    if r.Ok? {
      assert out + ([(es[0].0 + d, es[0].1)] + r.value) == out + [(es[0].0 + d, es[0].1)] + r.value;
    }
  }

  /** The loop over one function map. */
  method MoveNames(es: seq<Entry>, d: nat, from: seq<seq<byte>>, to: seq<seq<byte>>)
    returns (r: Result<seq<Entry>, Problem>)
    ensures r == Moved(es, d, from, to)
  {
    var entries: seq<Entry> := [];
    var k := 0;
    ghost var rest := es;
    FollowingNothing(Moved(es, d, from, to));
    while k < |es|
      invariant 0 <= k <= |es| && rest == es[k..]
      invariant Moved(es, d, from, to) == Following(entries, Moved(rest, d, from, to))
    {
      var (index, text) := es[k];
      if index >= |from| || index + d >= |to| {
        return Err(OutOfRange);
      }
      if from[index] != to[index + d] {
        return Err(TypeDiffers(index));
      }
      MoveStep(entries, rest, d, from, to);
      entries := entries + [(index + d, text)];
      rest := rest[1..];
      k := k + 1;
    }
    assert entries + [] == entries;
    return Ok(entries);
  }

  lemma FollowingNothing(r: Result<seq<Entry>, Problem>)
    ensures Following([], r) == r
  {
    if r.Ok? {
      assert [] + r.value == r.value;
    }
  }

  /** The loop over the subsections. */
  method KeepSubsections(xs: seq<Subsection>, added: seq<Import>, from: seq<seq<byte>>, to: seq<seq<byte>>)
    returns (r: Result<Kept, Problem>)
    ensures r == KeepAll(Kept([], 0), xs, added, from, to)
  {
    hide Moved, NameMap, EncodeMap;
    var k := Kept([], 0);
    var i := 0;
    ghost var rest := xs;
    while i < |xs|
      invariant 0 <= i <= |xs| && rest == xs[i..]
      invariant KeepAll(Kept([], 0), xs, added, from, to) == KeepAll(k, rest, added, from, to)
    {
      var (id, body) := xs[i];
      if id == 1 {
        var es := ReadNameMap(body);
        if es.None? {
          return Err(Malformed);
        }
        var moved := MoveNames(es.value, |added|, from, to);
        if moved.Err? {
          return Err(moved.error);
        }
        var map_ := WriteMap(FrontNames(added) + moved.value);
        k := Kept(k.subsections + [(1, map_)], |moved.value|);
      } else if id == 7 || id == 9 {
        k := k.(subsections := k.subsections + [xs[i]]);
      }
      rest := rest[1..];
      i := i + 1;
    }
    return Ok(k);
  }

  /** The check of the exported functions. */
  method CountExports(exports: map<seq<byte>, nat>, es: seq<Entry>) returns (r: Result<nat, Problem>)
    ensures r == CheckExports(EXPORTS, exports, es)
  {
    hide NameOf;
    var checked := 0;
    var k := 0;
    ghost var rest := EXPORTS;
    while k < |EXPORTS|
      invariant 0 <= k <= |EXPORTS| && rest == EXPORTS[k..]
      invariant CheckExports(EXPORTS, exports, es) == Plus(checked, CheckExports(rest, exports, es))
    {
      var name := EXPORTS[k];
      assert rest[0] == name;
      if name in exports {
        if NameOf(es, exports[name]) != Some(name) {
          return Err(WrongExport(name));
        }
        checked := checked + 1;
      }
      rest := rest[1..];
      k := k + 1;
    }
    return Ok(checked);
  }

  function Plus(n: int, r: Result<nat, Problem>): Result<int, Problem> {
    match r
    case Err(p) => Err(p)
    case Ok(m) => Ok(n + m)
  }

  method JoinAll(xs: seq<Subsection>) returns (payload: seq<byte>)
    ensures payload == Join(xs)
  {
    hide Leb.Encode;
    payload := [];
    var k := 0;
    ghost var rest := xs;
    while k < |xs|
      invariant 0 <= k <= |xs| && rest == xs[k..]
      invariant payload + Join(rest) == Join(xs)
    {
      var size := Leb.WriteLeb(|xs[k].1|);
      JoinStep(payload, rest);
      payload := payload + ([xs[k].0] + size + xs[k].1);
      rest := rest[1..];
      k := k + 1;
    }
  }

  lemma JoinStep(payload: seq<byte>, rest: seq<Subsection>)
    requires rest != []
    ensures payload + Join(rest) == payload + SubsectionBytes(rest[0]) + Join(rest[1..])
  {
  }

  /** `main`, from the parsed modules to the payload. */
  method RenumberModule(linked: Module, inst: Module) returns (r: Result<seq<byte>, Problem>)
    ensures r == Renumber(linked, inst)
  {
    hide Subsections, KeepAll, NameMap, CheckExports, Mismatch;
    var problem := Mismatch(linked, inst);
    if problem.Some? {
      return Err(problem.value);
    }
    var xs := ReadSubsections(Payload(linked, inst));
    if xs.None? {
      return Err(Malformed);
    }
    var k := KeepSubsections(xs.value, Added(linked, inst), Signatures(linked), Signatures(inst));
    if k.Err? {
      return Err(k.error);
    }
    var body := LastFunctions(k.value.subsections);
    if k.value.functions == 0 || body.None? {
      return Err(NoFunctionNames);
    }
    var final := ReadNameMap(body.value);
    if final.None? {
      return Err(Malformed);
    }
    var checked := CountExports(inst.exports, final.value);
    if checked.Err? {
      return Err(checked.error);
    }
    if checked.value < 3 {
      return Err(FewExports);
    }
    var payload := JoinAll(k.value.subsections);
    return Ok(payload);
  }

  function Payload(linked: Module, inst: Module): seq<byte>
    requires Mismatch(linked, inst).None?
  {
    linked.names.value
  }

  // ----- When the script succeeds -----

  /** Every function map can be read, and names only functions there are. */
  predicate AllMovable(xs: seq<Subsection>, n: nat) {
    forall k :: 0 <= k < |xs| && xs[k].0 == 1 ==> NameMap(xs[k].1).Some? && InRange(NameMap(xs[k].1).value, n)
  }

  /** How many functions the last function map names. */
  function LastCount(xs: seq<Subsection>, before: nat): nat {
    if xs == [] then before
    else LastCount(xs[1..], if xs[0].0 == 1 && NameMap(xs[0].1).Some? then |NameMap(xs[0].1).value| else before)
  }

  lemma {:induction false} KeepAllExact(linked: Module, inst: Module, k: Kept, xs: seq<Subsection>)
    requires Mismatch(linked, inst).None?
    ensures var r := KeepAll(k, xs, Added(linked, inst), Signatures(linked), Signatures(inst));
            && (r.Ok? <==> AllMovable(xs, |Signatures(linked)|))
            && (r.Ok? ==> r.value.functions == LastCount(xs, k.functions))
    decreases |xs|
  {
    hide Signatures, NameMap, EncodeMap, FrontNames, Moved, Shift, InRange, Mismatch;
    var n := |Signatures(linked)|;
    if xs != [] {
      AddedLength(linked, inst);
      MovableSplit(xs, n);
      if xs[0].0 == 1 && NameMap(xs[0].1).Some? {
        var es := NameMap(xs[0].1).value;
        MovesAll(linked, inst, es);
      }
      var r := Keep(k, xs[0], Added(linked, inst), Signatures(linked), Signatures(inst));
      if r.Ok? {
        KeepAllExact(linked, inst, r.value, xs[1..]);
      }
    }
  }

  lemma AddedLength(linked: Module, inst: Module)
    requires Mismatch(linked, inst).None?
    ensures 0 <= Delta(linked, inst) == |Added(linked, inst)|
  {
  }

  lemma MovableSplit(xs: seq<Subsection>, n: nat)
    requires xs != []
    ensures AllMovable(xs, n) <==>
            (xs[0].0 == 1 ==> NameMap(xs[0].1).Some? && InRange(NameMap(xs[0].1).value, n)) && AllMovable(xs[1..], n)
  {
    hide NameMap, InRange;
    assert forall k :: 1 <= k < |xs| ==> xs[k] == xs[1..][k - 1];
    assert forall k :: 0 <= k < |xs| - 1 ==> xs[1..][k] == xs[k + 1];
  }

  /** The script succeeds exactly if the modules belong together, every function map of LINKED can be
      read and names functions there are, the last one names any, and by what would be written
      the exported C functions carry their own names. */
  lemma RenumberExact(linked: Module, inst: Module)
    ensures Renumber(linked, inst).Ok? <==>
            && Mismatch(linked, inst).None? && Subsections(linked.names.value).Some?
            && var xs := Subsections(linked.names.value).value;
               && AllMovable(xs, |Signatures(linked)|) && LastCount(xs, 0) > 0
               && var wanted := Wanted(xs, FrontNames(Added(linked, inst)), Delta(linked, inst));
                  wanted.Some? && NamesExports(Join(wanted.value), inst.exports)
  {
    hide Signatures, Wanted, KeepAll, FrontNames, Subsections, CheckExports, NameMap, AllMovable, LastCount, NamesExports;
    if Mismatch(linked, inst).None? && Subsections(linked.names.value).Some? {
      var xs := Subsections(linked.names.value).value;
      KeepAllExact(linked, inst, Kept([], 0), xs);
      if AllMovable(xs, |Signatures(linked)|) {
        KeepsWanted(linked, inst, Kept([], 0), xs);
        var wanted := Wanted(xs, FrontNames(Added(linked, inst)), Delta(linked, inst)).value;
        assert [] + wanted == wanted;
        WrittenExports(wanted, inst.exports);
      }
    }
  }

  lemma WrittenExports(wanted: seq<Subsection>, exports: map<seq<byte>, nat>)
    ensures NamesExports(Join(wanted), exports) <==>
            && LastFunctions(wanted).Some? && NameMap(LastFunctions(wanted).value).Some?
            && var r := CheckExports(EXPORTS, exports, NameMap(LastFunctions(wanted).value).value);
               r.Ok? && r.value >= 3
  {
    hide Subsections, CheckExports, NameMap, LastFunctions, NameOf, Exported;
    SubsectionsRoundTrip(wanted);
    if LastFunctions(wanted).Some? && NameMap(LastFunctions(wanted).value).Some? {
      Checked(EXPORTS, exports, NameMap(LastFunctions(wanted).value).value);
    }
  }

  // ----- The module without its names -----

  function LastName(xs: seq<Section>): (i: nat)
    ensures i <= |xs| && (i < |xs| ==> Split.IsName(xs[i])) && forall k :: i < k < |xs| ==> !Split.IsName(xs[k])
    ensures i == |xs| ==> forall k :: 0 <= k < |xs| ==> !Split.IsName(xs[k])
  {
    if xs == [] then 0
    else
      var i := LastName(xs[1..]);
      if i < |xs| - 1 then i + 1 else if Split.IsName(xs[0]) then 0 else |xs|
  }

  function WithoutLast(xs: seq<Section>): seq<Section> {
    var i := LastName(xs);
    if i < |xs| then xs[..i] + xs[i + 1..] else xs
  }

  /** The names of a module: the payload of the last `name` section, if there is one. */
  function NamesIn(xs: seq<Section>): Option<seq<byte>> {
    var i := LastName(xs);
    if i < |xs| then Some(xs[i].payload) else None
  }

  function Names(data: seq<byte>): Result<Option<seq<byte>>, Failure> {
    if !(HEADER <= data) then Err(NotWasm)
    else
      match Parse(data[8..])
      case Err(f) => Err(f)
      case Ok(xs) => Ok(NamesIn(xs))
  }

  /** OUT.wasm: the module without the last `name` section that `parse` came across. */
  function Stripped(data: seq<byte>): Result<seq<byte>, Failure> {
    if !(HEADER <= data) then Err(NotWasm)
    else
      match Parse(data[8..])
      case Err(f) => Err(f)
      case Ok(xs) => Ok(HEADER + BytesOf(WithoutLast(xs)))
  }

  /** OUT.wasm parses to the module's sections less that one; these are its sections without
      `name` sections exactly if it had at most one. */
  lemma StrippedParses(data: seq<byte>)
    requires HEADER <= data && Parse(data[8..]).Ok? && AllWhole(Parse(data[8..]).value)
    ensures var xs := Parse(data[8..]).value;
            && Stripped(data).Ok?
            && Parse(Stripped(data).value[8..]) == Ok(WithoutLast(xs))
            && (WithoutLast(xs) == Split.Kept(xs, false) <==> Split.Names(xs) <= 1)
  {
    hide Parse;
    var xs := Parse(data[8..]).value;
    WholeIsFree(data[8..]);
    ParseFree(WithoutLast(xs));
    assert Stripped(data).value[8..] == BytesOf(WithoutLast(xs));
    OneNameLess(xs);
  }

  // a custom section called "name" without a payload
  const NAME_SECTION: seq<byte> := [0, 5, 4, 110, 97, 109, 101]

  lemma NameSectionRead()
    ensures ReadExtent(NAME_SECTION) == Ok(Extent(0, 1, 5, 1, 4, Some("name")))
  {
    hide Utf8.Decode;
    Split.NameBytes();
    assert NAME_SECTION[1 + 1..] == [4, 110, 97, 109, 101];
    assert Slice(NAME_SECTION, 3, 7) == [110, 97, 109, 101];
  }

  /** Two sections in a row, as far as they matter to leaving one out. */
  lemma TwoSections(x: Section)
    ensures BytesOf([x, x]) == x.bytes + x.bytes && BytesOf([x]) == x.bytes
    ensures Split.IsName(x) ==> WithoutLast([x, x]) == [x]
  {
    assert [x, x][1..] == [x] && [x][1..] == [];
    assert BytesOf([x]) == x.bytes + [] == x.bytes;
    assert BytesOf([x, x]) == x.bytes + BytesOf([x]);
    assert LastName([x]) == if Split.IsName(x) then 0 else 1;
    assert [x, x][..1] + [x, x][2..] == [x];
  }

  lemma NameSectionFree()
    ensures exists x: Section :: Free(x) && Split.IsName(x) && x.bytes == NAME_SECTION
  {
    hide ReadExtent;
    NameSectionRead();
    var e := Extent(0, 1, 5, 1, 4, Some("name"));
    FirstIsFree(NAME_SECTION, e);
    assert SectionOf(NAME_SECTION, e).bytes == NAME_SECTION;
    assert Split.IsName(SectionOf(NAME_SECTION, e));
  }

  /** Of two `name` sections one is still there in OUT.wasm. */
  lemma OneNameIsLeft()
    ensures Stripped(HEADER + NAME_SECTION + NAME_SECTION) == Ok(HEADER + NAME_SECTION)
  {
    hide Parse, Split.IsName, Free, BytesOf, WithoutLast;
    NameSectionFree();
    var x: Section :| Free(x) && Split.IsName(x) && x.bytes == NAME_SECTION;
    ParseFree([x, x]);
    TwoSections(x);
    assert (HEADER + NAME_SECTION + NAME_SECTION)[8..] == NAME_SECTION + NAME_SECTION;
  }

  lemma {:induction false} NamesSplit(xs: seq<Section>, i: nat)
    requires i < |xs| && Split.IsName(xs[i])
    ensures 1 <= Split.Names(xs) && (Split.Names(xs) == 1 ==> i == Split.NameAt(xs))
    decreases |xs|
  {
    if i > 0 {
      NamesSplit(xs[1..], i - 1);
    } else {
      Split.NoneNamed(xs);
    }
  }

  lemma OneNameLess(xs: seq<Section>)
    ensures WithoutLast(xs) == Split.Kept(xs, false) <==> Split.Names(xs) <= 1
  {
    hide Split.Kept, Split.Names, Split.IsName, LastName;
    Counted(xs);
    Split.NoneNamed(xs);
    var i := LastName(xs);
    if i < |xs| {
      NamesSplit(xs, i);
      if Split.Names(xs) == 1 {
        Split.KeptAround(xs, i);
      }
    } else if Split.Names(xs) == 0 {
      Split.OthersUnchanged(xs);
    }
  }

  lemma {:induction false} Counted(xs: seq<Section>)
    ensures |Split.Kept(xs, false)| == |xs| - Split.Names(xs)
  {
    if xs != [] {
      Counted(xs[1..]);
    }
  }

  lemma {:induction false} LastNameSnoc(xs: seq<Section>, x: Section)
    ensures LastName(xs + [x])
            == if Split.IsName(x) then |xs| else if LastName(xs) < |xs| then LastName(xs) else |xs| + 1
  {
    if xs != [] {
      assert (xs + [x])[1..] == xs[1..] + [x];
      LastNameSnoc(xs[1..], x);
    }
  }

  /** The sections walked so far, and where the last `name` section among them is. */
  ghost predicate Located(data: seq<byte>, walked: seq<Section>, rest: seq<byte>, name: Option<(nat, nat)>) {
    && HEADER <= data && data == HEADER + BytesOf(walked) + rest
    && match name
       case None => LastName(walked) == |walked|
       case Some((start, end)) =>
         var i := LastName(walked);
         && i < |walked| && Slice(data, 0, start) == HEADER + BytesOf(walked[..i])
         && Tail(data, end) == BytesOf(walked[i + 1..]) + rest
  }

  lemma BytesMore(front: seq<byte>, xs: seq<Section>, x: Section, rest: seq<byte>, more: seq<byte>)
    requires rest == x.bytes + more
    ensures front + BytesOf(xs) + rest == front + BytesOf(xs + [x]) + more
    ensures BytesOf(xs) + rest == BytesOf(xs + [x]) + more
  {
    BytesAppend(xs, [x]);
    OneBytes(x);
    assert front + BytesOf(xs) + (x.bytes + more) == front + (BytesOf(xs) + x.bytes) + more;
    assert BytesOf(xs) + (x.bytes + more) == (BytesOf(xs) + x.bytes) + more;
  }

  lemma LocatedMore(data: seq<byte>, walked: seq<Section>, rest: seq<byte>, name: Option<(nat, nat)>,
                    at: nat, e: Extent)
    requires Located(data, walked, rest, name) && at < |data| && rest == data[at..] && e.End() > 0
    requires e.Body() + e.lengthBytes <= |rest|
    ensures var x := SectionOf(rest, e);
            Located(data, walked + [x], Tail(data, at + e.End()),
                    if Split.IsName(x) then Some((at, at + e.End())) else name)
  {
    hide LastName, Split.IsName, BytesOf, Slice, Tail, Whole, Shortest;
    var x, more := SectionOf(rest, e), Tail(data, at + e.End());
    Shifted(data, at, at, at + e.End());
    FrontAndTail(rest, e.End());
    LastNameSnoc(walked, x);
    BytesMore(HEADER, walked, x, rest, more);
    if Split.IsName(x) {
      FrontOf(data, HEADER + BytesOf(walked), rest, at);
      assert (walked + [x])[..|walked|] == walked && (walked + [x])[|walked| + 1..] == [];
      assert BytesOf([]) + more == more by { NoBytes(more); }
    } else if name.Some? {
      var i := LastName(walked);
      assert (walked + [x])[..i] == walked[..i] && (walked + [x])[i + 1..] == walked[i + 1..] + [x];
      BytesMore(HEADER, walked[i + 1..], x, rest, more);
    }
  }

  lemma NoBytes(more: seq<byte>)
    ensures BytesOf([]) + more == more
  {
  }

  lemma FrontOf(data: seq<byte>, front: seq<byte>, rest: seq<byte>, at: nat)
    requires data == front + rest && at < |data| && rest == data[at..]
    ensures Slice(data, 0, at) == front
  {
    assert |rest| == |data| - at;
    assert data[..at] == front;
  }

  lemma OneBytes(x: Section)
    ensures BytesOf([x]) == x.bytes
  {
    assert [x][1..] == [];
  }

  lemma FrontAndTail(s: seq<byte>, n: nat)
    ensures s == Slice(s, 0, n) + Tail(s, n)
  {
    if n <= |s| {
      assert s == s[..n] + s[n..];
    }
  }

  lemma NamesSnoc(xs: seq<Section>, x: Section)
    ensures NamesIn(xs + [x]) == if Split.IsName(x) then Some(x.payload) else NamesIn(xs)
  {
    LastNameSnoc(xs, x);
  }

  /** The part of `parse` that looks for the names: the module without them, and the names. */
  method StripModule(data: seq<byte>) returns (r: Result<(seq<byte>, Option<seq<byte>>), Failure>)
    ensures r.Ok? ==> Stripped(data) == Ok(r.value.0) && Names(data) == Ok(r.value.1)
    ensures r.Err? ==> Stripped(data) == Err(r.error) && Names(data) == Err(r.error)
  {
    hide Parse, SectionOf, ReadExtent, Located, Split.IsName, NamesIn;
    if Slice(data, 0, 8) != HEADER {
      Split.SliceIsPrefix(data);
      return Err(NotWasm);
    }
    Split.SliceIsPrefix(data);
    var at: nat := 8;
    var name: Option<(nat, nat)> := None;
    var names: Option<seq<byte>> := None;
    NoNamesIn();
    ghost var walked: seq<Section>, rest := [], data[8..];
    LocatedStart(data);
    while at < |data|
      invariant 8 <= at && rest == Tail(data, at)
      invariant Located(data, walked, rest, name) && names == NamesIn(walked)
      invariant Parse(data[8..]) == Following(walked, Parse(rest))
      decreases |data| - at
    {
      var e := Split.NextExtent(data, at);
      ParseStep(walked, rest);
      if e.Err? {
        return Err(e.error);
      }
      var x := SectionOf(data[at..], e.value);
      LocatedMore(data, walked, rest, name, at, e.value);
      Shifted(data, at, at, at + e.value.End());
      NamesSnoc(walked, x);
      if Split.IsName(x) {
        name := Some((at, at + e.value.End()));
        names := Some(x.payload);
      }
      walked := walked + [x];
      at := at + e.value.End();
      rest := Tail(data, at);
    }
    LocatedEnd(data, walked, rest, name);
    return Ok((if name.None? then data else Slice(data, 0, name.value.0) + Tail(data, name.value.1), names));
  }

  lemma NoNamesIn()
    ensures NamesIn([]) == None
  {
  }

  lemma ParseStep(walked: seq<Section>, rest: seq<byte>)
    requires rest != []
    ensures ReadExtent(rest).Err? ==> Following(walked, Parse(rest)) == Err(ReadExtent(rest).error)
    ensures ReadExtent(rest).Ok? ==>
              Following(walked, Parse(rest))
              == Following(walked + [SectionOf(rest, ReadExtent(rest).value)],
                        Parse(Tail(rest, ReadExtent(rest).value.End())))
  {
    hide ReadExtent, SectionOf;
    if ReadExtent(rest).Ok? {
      var x := SectionOf(rest, ReadExtent(rest).value);
      var r := Parse(Tail(rest, ReadExtent(rest).value.End()));
      if r.Ok? {
        assert walked + ([x] + r.value) == walked + [x] + r.value;
      }
    }
  }

  lemma LocatedStart(data: seq<byte>)
    requires HEADER <= data
    ensures Located(data, [], data[8..], None) && Tail(data, 8) == data[8..]
    ensures Parse(data[8..]) == Following([], Parse(data[8..]))
  {
    hide Parse;
    assert data == HEADER + [] + data[8..];
    if Parse(data[8..]).Ok? {
      assert [] + Parse(data[8..]).value == Parse(data[8..]).value;
    }
  }

  lemma LocatedEnd(data: seq<byte>, walked: seq<Section>, rest: seq<byte>, name: Option<(nat, nat)>)
    requires Located(data, walked, rest, name) && rest == []
    requires Parse(data[8..]) == Following(walked, Parse(rest))
    ensures Stripped(data)
            == Ok(if name.None? then data else Slice(data, 0, name.value.0) + Tail(data, name.value.1))
    ensures Names(data) == Ok(NamesIn(walked))
  {
    hide LastName, BytesOf, Slice, Tail;
    assert walked + [] == walked;
    assert Parse(data[8..]) == Ok(walked);
    hide Parse;
    if name.None? {
      assert data == HEADER + BytesOf(walked);
    } else {
      var i := LastName(walked);
      BytesAppend(walked[..i], walked[i + 1..]);
      var front, back := BytesOf(walked[..i]), BytesOf(walked[i + 1..]);
      assert HEADER + front + (back + []) == HEADER + (front + back);
    }
  }

  // ----- The whole script -----

  /** A module that cannot be read, or two that do not belong together. */
  datatype Refusal = Unreadable(failure: Failure) | Unfit(problem: Problem)

  /** `main`: OUT.wasm and OUT.names from the bytes of both modules. What `parse` finds in them
      besides the names is given. */
  function Script(linked: seq<byte>, lm: Module, inst: seq<byte>, im: Module): Result<(seq<byte>, seq<byte>), Refusal> {
    match Names(linked)
    case Err(f) => Err(Unreadable(f))
    case Ok(names) =>
      match Stripped(inst)
      case Err(f) => Err(Unreadable(f))
      case Ok(wasm) =>
        match Renumber(lm.(names := names), im)
        case Err(p) => Err(Unfit(p))
        case Ok(payload) => Ok((wasm, payload))
  }

  method Convert(linked: seq<byte>, lm: Module, inst: seq<byte>, im: Module)
    returns (r: Result<(seq<byte>, seq<byte>), Refusal>)
    ensures r == Script(linked, lm, inst, im)
  {
    hide Names, Stripped, Renumber;
    var l := StripModule(linked);
    if l.Err? {
      return Err(Unreadable(l.error));
    }
    var i := StripModule(inst);
    if i.Err? {
      return Err(Unreadable(i.error));
    }
    var payload := RenumberModule(lm.(names := l.value.1), im);
    return if payload.Ok? then Ok((i.value.0, payload.value)) else Err(Unfit(payload.error));
  }

  /** What a successful run has written. OUT.names is the payload of LINKED's last `name`
      section with every function map moved and the added imports in front, and by it the
      exported C functions carry their own names; OUT.wasm is INSTRUMENTED less its last `name`
      section, and so has no `name` section left if it had one at most. */
  lemma ScriptGives(linked: seq<byte>, lm: Module, inst: seq<byte>, im: Module)
    requires Script(linked, lm, inst, im).Ok?
    ensures HEADER <= linked && Parse(linked[8..]).Ok? && HEADER <= inst && Parse(inst[8..]).Ok?
    ensures var (wasm, payload) := Script(linked, lm, inst, im).value;
            var ls, ns := Parse(linked[8..]).value, Parse(inst[8..]).value;
            && LastName(ls) < |ls|
            && var m := lm.(names := Some(ls[LastName(ls)].payload));
               && Mismatch(m, im).None? && 0 <= Delta(m, im)
               && var before, front := Subsections(ls[LastName(ls)].payload), FrontNames(Added(m, im));
                  && before.Some? && Wanted(before.value, front, Delta(m, im)).Some?
                  && Subsections(payload) == Wanted(before.value, front, Delta(m, im))
                  && NamesExports(payload, im.exports)
                  && (AllWhole(ns) ==>
                        && HEADER <= wasm && Parse(wasm[8..]) == Ok(WithoutLast(ns))
                        && (Split.Names(ns) <= 1 <==> WithoutLast(ns) == Split.Kept(ns, false)))
  {
    hide Parse, Renumber, Mismatch, Wanted, Subsections, FrontNames, Split.Kept, Split.Names, WithoutLast, NamesExports;
    var ls := Parse(linked[8..]).value;
    var m := lm.(names := NamesIn(ls));
    NamesRight(m, im);
    ExportsNamed(m, im);
    HasNames(m, im);
    if AllWhole(Parse(inst[8..]).value) {
      StrippedParses(inst);
    }
  }

  lemma HasNames(linked: Module, inst: Module)
    requires Mismatch(linked, inst).None?
    ensures linked.names.Some?
  {
  }
}

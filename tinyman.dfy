/**
 * The pool-signature generator: it patches the two asset ids and the
 * validator application id into the fixed pool program binary.  The
 * program hash / address that wraps the patched bytes is not part of this
 * model; it ends at the patched bytes.
 */
module TinymanSignature {
  import opened Wrappers
  import opened Varint

  /** The names a placeholder may stand for (the keys of the value lookup). */
  datatype Field = AssetId1 | AssetId2 | ValidatorAppId

  /** One substitution site: a varint of `length` bytes at `index` of the unpatched template. */
  datatype Placeholder = Placeholder(field: Field, index: nat, length: nat)

  /** The placeholder table of the pool program, in ascending original offset. */
  const TemplateTable: seq<Placeholder> :=
    [ Placeholder(AssetId2, 5, 10),
      Placeholder(AssetId1, 15, 10),
      Placeholder(ValidatorAppId, 74, 10) ]

  datatype Error =
    | TinymanIdNotSet     // "Tinyman ID not set!"
    | ParametersNotSet    // "Parameters not set!"

  function End(d: Placeholder): nat
  {
    d.index + d.length
  }

  /** Where the last placeholder of `table` ends in the unpatched template (0 for none). */
  function PrevEnd(table: seq<Placeholder>): nat
  {
    if table == [] then 0 else End(table[|table| - 1])
  }

  /**
   * Regions in ascending order and pairwise disjoint, all ending by `n`:
   * the last region ends by `n` and every earlier one ends by the start of
   * the last.
   */
  predicate WellFormedTable(table: seq<Placeholder>, n: nat)
    decreases |table|
  {
    table == [] ||
    (End(table[|table| - 1]) <= n && WellFormedTable(table[..|table| - 1], table[|table| - 1].index))
  }

  /**
   * JavaScript's Array.prototype.slice(from, to): negative positions count
   * from the end, out-of-range positions are clamped.
   */
  function JsSlice<T>(s: seq<T>, from: int, to: int): seq<T>
  {
    var a := if from < 0 then (if |s| + from < 0 then 0 else |s| + from)
             else if from > |s| then |s| else from;
    var b := if to < 0 then (if |s| + to < 0 then 0 else |s| + to)
             else if to > |s| then |s| else to;
    if a < b then s[a..b] else []
  }

  /**
   * `sliceInsert`: a fresh sequence made of the part before `start`, the
   * inserted bytes and the part from `end` on.  (The argument is a value:
   * it cannot be changed by the call.)
   */
  function SliceInsert(arr: seq<byte>, start: int, end: int, toInsert: seq<byte>): (r: seq<byte>)
    ensures 0 <= start <= end <= |arr| ==>
              r == arr[..start] + toInsert + arr[end..] &&
              |r| == |arr| - (end - start) + |toInsert|
  {
    JsSlice(arr, 0, start) + toInsert + JsSlice(arr, end, |arr|)
  }

  /** The running `offset`: the summed width change of the first |table| substitutions. */
  function Drift(table: seq<Placeholder>, encs: seq<seq<byte>>): int
    requires |encs| == |table|
  {
    if table == [] then 0
    else Drift(table[..|table| - 1], encs[..|table| - 1]) + table[|table| - 1].length - |encs[|table| - 1]|
  }

  lemma {:induction false} WellFormedPrefix(table: seq<Placeholder>, n: nat, k: nat)
    requires WellFormedTable(table, n) && k <= |table|
    ensures WellFormedTable(table[..k], n)
    decreases |table|
  {
    if k == |table| {
      assert table[..k] == table;
    } else {
      var m := |table| - 1;
      WellFormedPrefix(table[..m], table[m].index, k);
      assert table[..m][..k] == table[..k];
      WellFormedMono(table[..k], table[m].index, n);
    }
  }

  lemma WellFormedMono(table: seq<Placeholder>, n: nat, n': nat)
    requires WellFormedTable(table, n) && n <= n'
    ensures WellFormedTable(table, n')
  {
  }

  /** In a well-formed table every region ends by `n`, in particular the last. */
  lemma WellFormedEnd(table: seq<Placeholder>, n: nat)
    requires WellFormedTable(table, n)
    ensures PrevEnd(table) <= n
  {
  }

  /**
   * Reference layout, in ORIGINAL template offsets only: the template bytes
   * before each region, each region's encoding, up to the end of the last
   * region.
   */
  function Prefix(template: seq<byte>, table: seq<Placeholder>, encs: seq<seq<byte>>): seq<byte>
    requires |encs| == |table| && WellFormedTable(table, |template|)
  {
    if table == [] then []
    else
      var n := |table| - 1;
      WellFormedPrefix(table, |template|, n);
      WellFormedEnd(table[..n], table[n].index);
      Prefix(template, table[..n], encs[..n]) + template[PrevEnd(table[..n])..table[n].index] + encs[n]
  }

  /** The template with every region of `table` replaced by its encoding. */
  function Patched(template: seq<byte>, table: seq<Placeholder>, encs: seq<seq<byte>>): seq<byte>
    requires |encs| == |table| && WellFormedTable(table, |template|)
  {
    WellFormedEnd(table, |template|);
    Prefix(template, table, encs) + template[PrevEnd(table)..]
  }

  lemma {:induction false} PrefixLength(template: seq<byte>, table: seq<Placeholder>, encs: seq<seq<byte>>)
    requires |encs| == |table| && WellFormedTable(table, |template|)
    ensures |Prefix(template, table, encs)| == PrevEnd(table) - Drift(table, encs)
  {
    if table != [] {
      var n := |table| - 1;
      WellFormedPrefix(table, |template|, n);
      PrefixLength(template, table[..n], encs[..n]);
    }
  }

  /** The patched length is the template's length minus the final drift. */
  lemma PatchedLength(template: seq<byte>, table: seq<Placeholder>, encs: seq<seq<byte>>)
    requires |encs| == |table| && WellFormedTable(table, |template|)
    ensures |Patched(template, table, encs)| == |template| - Drift(table, encs)
  {
    PrefixLength(template, table, encs);
    WellFormedEnd(table, |template|);
  }

  /** The facts about region k that the patch step needs. */
  lemma WellFormedStep(table: seq<Placeholder>, n: nat, k: nat)
    requires WellFormedTable(table, n) && k < |table|
    ensures WellFormedTable(table[..k], n) && WellFormedTable(table[..k + 1], n)
    ensures PrevEnd(table[..k]) <= table[k].index && End(table[k]) <= n
  {
    WellFormedPrefix(table, n, k);
    WellFormedPrefix(table, n, k + 1);
    var t := table[..k + 1];
    assert t[..k] == table[..k] && t[k] == table[k];
    assert WellFormedTable(t[..k], t[k].index);
    WellFormedEnd(table[..k], table[k].index);
  }

  lemma DriftStep(table: seq<Placeholder>, encs: seq<seq<byte>>, k: nat)
    requires |encs| == |table| && k < |table|
    ensures Drift(table[..k + 1], encs[..k + 1])
         == Drift(table[..k], encs[..k]) + table[k].length - |encs[k]|
  {
    assert table[..k + 1][..k] == table[..k] && encs[..k + 1][..k] == encs[..k];
  }

  lemma PrefixStep(template: seq<byte>, table: seq<Placeholder>, encs: seq<seq<byte>>, k: nat)
    requires |encs| == |table| && k < |table|
    requires WellFormedTable(table[..k], |template|) && WellFormedTable(table[..k + 1], |template|)
    requires PrevEnd(table[..k]) <= table[k].index <= |template|
    ensures Prefix(template, table[..k + 1], encs[..k + 1])
         == Prefix(template, table[..k], encs[..k]) + template[PrevEnd(table[..k])..table[k].index] + encs[k]
    ensures PrevEnd(table[..k + 1]) == End(table[k])
  {
    assert table[..k + 1][..k] == table[..k] && encs[..k + 1][..k] == encs[..k];
  }

  /**
   * One step of the patch loop: splicing encoding k at `index - offset` of
   * the buffer patched for the first k regions gives the buffer patched for
   * the first k + 1.
   */
  lemma PatchStep(template: seq<byte>, table: seq<Placeholder>, encs: seq<seq<byte>>, k: nat,
                  buffer: seq<byte>, start: int, end: int)
    requires |encs| == |table| && WellFormedTable(table, |template|) && k < |table|
    requires WellFormedTable(table[..k], |template|)
    requires buffer == Patched(template, table[..k], encs[..k])
    requires start == table[k].index - Drift(table[..k], encs[..k])
    requires end == start + table[k].length
    ensures WellFormedTable(table[..k + 1], |template|)
    ensures 0 <= start <= end <= |buffer|
    ensures buffer[..start] + encs[k] + buffer[end..] == Patched(template, table[..k + 1], encs[..k + 1])
    ensures Drift(table[..k + 1], encs[..k + 1])
         == Drift(table[..k], encs[..k]) + table[k].length - |encs[k]|
  {
    WellFormedStep(table, |template|, k);
    var t, e := table[..k], encs[..k];
    PrefixLength(template, t, e);
    PatchedStep(template, table, encs, k);
    DriftStep(table, encs, k);
    var p, a, i, j := Prefix(template, t, e), PrevEnd(t), table[k].index, End(table[k]);
    assert |p| == a - Drift(t, e) && end == start + (j - i);
    SpliceAt(p, template, a, i, j, encs[k], buffer, start, end);
  }

  /** Patched for k and for k + 1 regions, both in terms of the prefix for k. */
  lemma PatchedStep(template: seq<byte>, table: seq<Placeholder>, encs: seq<seq<byte>>, k: nat)
    requires |encs| == |table| && k < |table|
    requires WellFormedTable(table[..k], |template|) && WellFormedTable(table[..k + 1], |template|)
    requires PrevEnd(table[..k]) <= table[k].index && End(table[k]) <= |template|
    ensures Patched(template, table[..k], encs[..k])
         == Prefix(template, table[..k], encs[..k]) + template[PrevEnd(table[..k])..]
    ensures Patched(template, table[..k + 1], encs[..k + 1])
         == Prefix(template, table[..k], encs[..k]) + template[PrevEnd(table[..k])..table[k].index]
            + encs[k] + template[End(table[k])..]
  {
    PrefixStep(template, table, encs, k);
  }

  /**
   * In `buffer = p + template[a..]`, the position that corresponds to
   * original offset `i` splits the buffer into `p + template[a..i]` and,
   * from original offset `j` on, `template[j..]`.
   */
  lemma SpliceAt(p: seq<byte>, template: seq<byte>, a: nat, i: nat, j: nat, enc: seq<byte>,
                 buffer: seq<byte>, start: int, end: int)
    requires a <= i <= j <= |template|
    requires buffer == p + template[a..] && start == |p| + (i - a) && end == start + (j - i)
    ensures 0 <= start <= end <= |buffer|
    ensures buffer[..start] + enc + buffer[end..] == p + template[a..i] + enc + template[j..]
  {
    assert buffer[..start] == p + template[a..i];
    assert buffer[end..] == template[j..];
  }

  /** The value lookup as a list of encodings, in table order. */
  function Encodings(table: seq<Placeholder>, lookup: map<Field, nat>): (encs: seq<seq<byte>>)
    requires forall i :: 0 <= i < |table| ==> table[i].field in lookup
    ensures |encs| == |table|
    ensures forall i :: 0 <= i < |table| ==> encs[i] == UVarint(lookup[table[i].field])
  {
    seq(|table|, i requires 0 <= i < |table| => UVarint(lookup[table[i].field]))
  }

  /** `valueLookUpObject`: what each placeholder name stands for. */
  function ValueLookUp(asset1: nat, asset2: nat, validator: nat): map<Field, nat>
  {
    map[AssetId1 := asset1, AssetId2 := asset2, ValidatorAppId := validator]
  }

  /**
   * In the order of the pool table the encodings are TMPL_ASSET_ID_2's,
   * then TMPL_ASSET_ID_1's, then the validator id's: the second asset id is
   * written first.
   */
  lemma PoolEncodings(asset1: nat, asset2: nat, validator: nat)
    ensures forall i :: 0 <= i < |TemplateTable| ==> TemplateTable[i].field in ValueLookUp(asset1, asset2, validator)
    ensures Encodings(TemplateTable, ValueLookUp(asset1, asset2, validator))
         == [UVarint(asset2), UVarint(asset1), UVarint(validator)]
  {
  }

  /**
   * The patch loop of `getTinymanPoolSignatureAccount`: walks the table in
   * order, splicing each encoded value at its original index corrected by
   * the running drift `offset`.
   */
  method PatchTemplate(template: seq<byte>, table: seq<Placeholder>, lookup: map<Field, nat>)
    returns (bytes: seq<byte>)
    requires WellFormedTable(table, |template|)
    requires forall i :: 0 <= i < |table| ==> table[i].field in lookup
    ensures bytes == Patched(template, table, Encodings(table, lookup))
    ensures |bytes| == |template| - Drift(table, Encodings(table, lookup))
  {
    ghost var encs := Encodings(table, lookup);
    bytes := template;
    var offset: int := 0;
    assert table[..0] == [] && encs[..0] == [];
    assert Patched(template, table[..0], encs[..0]) == [] + template[0..];
    for k := 0 to |table|
      invariant WellFormedTable(table[..k], |template|)
      invariant offset == Drift(table[..k], encs[..k])
      invariant bytes == Patched(template, table[..k], encs[..k])
    {
      var d := table[k];
      var value := lookup[d.field];
      var start := d.index - offset;
      var end := start + d.length;
      var encoded := UVarint(value);
      var diff := d.length - |encoded|;
      offset := offset + diff;
      PatchStep(template, table, encs, k, bytes, start, end);
      bytes := SliceInsert(bytes, start, end, encoded);
    }
    assert table[..|table|] == table && encs[..|table|] == encs;
    PatchedLength(template, table, encs);
  }

  /** The table fits any template of at least 84 bytes (the pool template has 881). */
  lemma TemplateTableWellFormed(n: nat)
    requires n >= 84
    ensures WellFormedTable(TemplateTable, n)
  {
    var t := TemplateTable;
    assert t[..2][..1] == t[..1] && t[..1][..0] == [];
    assert WellFormedTable(t[..1], 15);
    assert WellFormedTable(t[..2], 74);
  }

  /** The generator object: it only holds the validator application id. */
  datatype Tinyman = Tinyman(validatorAppId: nat)

  /** The constructor: a null validator id is refused. */
  function NewTinyman(validatorAppId: Option<nat>): (r: Result<Tinyman, Error>)
    ensures r.Failure? <==> validatorAppId.None?
    ensures r.Failure? ==> r.error == TinymanIdNotSet
    ensures r.Success? ==> r.value.validatorAppId == validatorAppId.value
  {
    match validatorAppId
    case None => Failure(TinymanIdNotSet)
    case Some(id) => Success(Tinyman(id))
  }

  /**
   * The pool program patched into `template` (the pool binary PoolTemplate,
   * or any binary with the same table) for TMPL_ASSET_ID_1 = asset1,
   * TMPL_ASSET_ID_2 = asset2 and TMPL_VALIDATOR_APP_ID = validator.
   */
  function PoolProgram(template: seq<byte>, asset1: nat, asset2: nat, validator: nat): seq<byte>
    requires |template| >= 84
  {
    TemplateTableWellFormed(|template|);
    Patched(template, TemplateTable, [UVarint(asset2), UVarint(asset1), UVarint(validator)])
  }

  /** The layout of a patched template with a three-region table, region by region. */
  lemma ThreeRegionLayout(template: seq<byte>, table: seq<Placeholder>, encs: seq<seq<byte>>)
    requires |table| == 3 && |encs| == 3 && WellFormedTable(table, |template|)
    ensures table[0].index <= End(table[0]) <= table[1].index <= End(table[1])
            <= table[2].index <= End(table[2]) <= |template|
    ensures Patched(template, table, encs)
         == template[..table[0].index] + encs[0]
            + template[End(table[0])..table[1].index] + encs[1]
            + template[End(table[1])..table[2].index] + encs[2]
            + template[End(table[2])..]
  {
    WellFormedStep(table, |template|, 0);
    WellFormedStep(table, |template|, 1);
    WellFormedStep(table, |template|, 2);
    var p1 := FirstRegion(template, table, encs);
    PrefixStep(template, table, encs, 1);
    var p2 := Prefix(template, table[..2], encs[..2]);
    PrefixStep(template, table, encs, 2);
    assert table[..3] == table && encs[..3] == encs;
    assert Patched(template, table, encs) == p2 + template[End(table[1])..table[2].index] + encs[2] + template[End(table[2])..];
  }

  /** The prefix up to the end of the first region. */
  lemma FirstRegion(template: seq<byte>, table: seq<Placeholder>, encs: seq<seq<byte>>) returns (p1: seq<byte>)
    requires |table| == |encs| >= 1
    requires WellFormedTable(table[..1], |template|) && table[0].index <= |template|
    ensures p1 == Prefix(template, table[..1], encs[..1]) == template[..table[0].index] + encs[0]
    ensures PrevEnd(table[..1]) == End(table[0])
  {
    var t1, e1 := table[..1], encs[..1];
    assert t1[..0] == [] && e1[..0] == [] && t1[0] == table[0] && e1[0] == encs[0];
    assert Prefix(template, t1[..0], e1[..0]) == [];
    p1 := Prefix(template, t1, e1);
    assert p1 == [] + template[0..table[0].index] + encs[0];
  }

  /**
   * Only the three reserved regions change: the patched program is the
   * template outside the regions, in order, with each region replaced by the
   * encoding of its value.
   */
  lemma PoolProgramLayout(template: seq<byte>, asset1: nat, asset2: nat, validator: nat)
    requires |template| >= 84
    ensures PoolProgram(template, asset1, asset2, validator)
         == template[..5] + UVarint(asset2) + UVarint(asset1)
            + template[25..74] + UVarint(validator) + template[84..]
  {
    TemplateTableWellFormed(|template|);
    var t := TemplateTable;
    var encs: seq<seq<byte>> := [UVarint(asset2), UVarint(asset1), UVarint(validator)];
    assert PoolProgram(template, asset1, asset2, validator) == Patched(template, t, encs);
    ThreeRegionLayout(template, t, encs);
    assert t[0].index == 5 && End(t[0]) == 15 && t[1].index == 15;
    assert End(t[1]) == 25 && t[2].index == 74 && End(t[2]) == 84;
    var e0, e1, e2 := encs[0], encs[1], encs[2];
    var head := template[..5] + e0;
    assert template[15..15] == [];
    assert head + template[15..15] == head;
    assert Patched(template, t, encs)
        == head + template[15..15] + e1 + template[25..74] + e2 + template[84..];
  }

  lemma Reassociate<T>(h: seq<T>, x: seq<T>, y: seq<T>, m: seq<T>, z: seq<T>, t: seq<T>)
    ensures h + x + y + m + z + t == h + (x + (y + (m + (z + t))))
  {
  }

  lemma StripHead<T>(h: seq<T>, x: seq<T>, y: seq<T>)
    requires h + x == h + y
    ensures x == y
  {
    assert x == (h + x)[|h|..] && y == (h + y)[|h|..];
  }

  /** Two layouts that share the head agree from the first region on. */
  lemma StripLayoutHead(head: seq<byte>, mid: seq<byte>, tail: seq<byte>,
                        x2: seq<byte>, x1: seq<byte>, xv: seq<byte>,
                        y2: seq<byte>, y1: seq<byte>, yw: seq<byte>)
    requires head + x2 + x1 + mid + xv + tail == head + y2 + y1 + mid + yw + tail
    ensures x2 + (x1 + (mid + (xv + tail))) == y2 + (y1 + (mid + (yw + tail)))
  {
    Reassociate(head, x2, x1, mid, xv, tail);
    Reassociate(head, y2, y1, mid, yw, tail);
    StripHead(head, x2 + (x1 + (mid + (xv + tail))), y2 + (y1 + (mid + (yw + tail))));
  }

  /** Varints read one after another, with fixed filler between, determine their values. */
  lemma VarintChainInjective(mid: seq<byte>, tail: seq<byte>,
                             x2: seq<byte>, x1: seq<byte>, xv: seq<byte>,
                             y2: seq<byte>, y1: seq<byte>, yw: seq<byte>,
                             a2: nat, a1: nat, v: nat, b2: nat, b1: nat, w: nat)
    requires x2 == UVarint(a2) && x1 == UVarint(a1) && xv == UVarint(v)
    requires y2 == UVarint(b2) && y1 == UVarint(b1) && yw == UVarint(w)
    requires x2 + (x1 + (mid + (xv + tail))) == y2 + (y1 + (mid + (yw + tail)))
    ensures a1 == b1 && a2 == b2 && v == w
  {
    VarintPrefixFree(x2, y2, x1 + (mid + (xv + tail)), y1 + (mid + (yw + tail)), a2, b2);
    VarintPairInjective(mid, tail, x1, xv, y1, yw, a1, v, b1, w);
  }

  lemma VarintPairInjective(mid: seq<byte>, tail: seq<byte>,
                            x1: seq<byte>, xv: seq<byte>, y1: seq<byte>, yw: seq<byte>,
                            a1: nat, v: nat, b1: nat, w: nat)
    requires x1 == UVarint(a1) && xv == UVarint(v) && y1 == UVarint(b1) && yw == UVarint(w)
    requires x1 + (mid + (xv + tail)) == y1 + (mid + (yw + tail))
    ensures a1 == b1 && v == w
  {
    VarintPrefixFree(x1, y1, mid + (xv + tail), mid + (yw + tail), a1, b1);
    StripHead(mid, xv + tail, yw + tail);
    VarintPrefixFree(xv, yw, tail, tail, v, w);
  }

  lemma VarintPrefixFree(x: seq<byte>, y: seq<byte>, r1: seq<byte>, r2: seq<byte>, v: nat, w: nat)
    requires x == UVarint(v) && y == UVarint(w) && x + r1 == y + r2
    ensures v == w && r1 == r2
  {
    EncodingInjective(v, w, r1, r2);
  }

  /** Three varints between fixed filler sequences determine their values. */
  lemma LayoutInjective(head: seq<byte>, mid: seq<byte>, tail: seq<byte>,
                        x2: seq<byte>, x1: seq<byte>, xv: seq<byte>,
                        y2: seq<byte>, y1: seq<byte>, yw: seq<byte>,
                        a2: nat, a1: nat, v: nat, b2: nat, b1: nat, w: nat)
    requires x2 == UVarint(a2) && x1 == UVarint(a1) && xv == UVarint(v)
    requires y2 == UVarint(b2) && y1 == UVarint(b1) && yw == UVarint(w)
    requires head + x2 + x1 + mid + xv + tail == head + y2 + y1 + mid + yw + tail
    ensures a1 == b1 && a2 == b2 && v == w
  {
    StripLayoutHead(head, mid, tail, x2, x1, xv, y2, y1, yw);
    VarintChainInjective(mid, tail, x2, x1, xv, y2, y1, yw, a2, a1, v, b2, b1, w);
  }

  /**
   * The program determines its parameters: decoding the varints at the
   * shifted region offsets gives the three values back, so distinct
   * canonical inputs yield distinct programs.
   */
  lemma PoolProgramInjective(template: seq<byte>, a1: nat, a2: nat, v: nat, b1: nat, b2: nat, w: nat)
    requires |template| >= 84
    requires PoolProgram(template, a1, a2, v) == PoolProgram(template, b1, b2, w)
    ensures a1 == b1 && a2 == b2 && v == w
  {
    PoolProgramLayout(template, a1, a2, v);
    PoolProgramLayout(template, b1, b2, w);
    var head, mid, tail := template[..5], template[25..74], template[84..];
    LayoutInjective(head, mid, tail, UVarint(a2), UVarint(a1), UVarint(v),
                    UVarint(b2), UVarint(b1), UVarint(w), a2, a1, v, b2, b1, w);
  }
}

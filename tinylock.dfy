/**
 * The lock-signature templater: checks its four parameters, looks the
 * request up in a memo keyed by JavaScript's `+` of the three ids and the
 * address, and otherwise fills the four markers of the lock program text
 * and sends the text to the compiler, memoizing what comes back.
 *
 * The compiler (a network request) is a function given to the
 * constructor; `None` stands for a request that fails.
 */
module TinylockSignature {
  import opened Wrappers
  import opened Text

  const AssetMarker: string := "TMPL_ASSET_ID"
  const ContractMarker: string := "TMPL_CONTRACT_ID"
  const FeeTokenMarker: string := "TMPL_FEETOKEN_ID"
  const AddressMarker: string := "TMPL_LOCKER_ADDRESS"

  /** What the compiler returns: the program's hash and its base64 bytecode. */
  datatype CompileResult = CompileResult(hash: string, result: string)

  datatype Error =
    | ParametersNotSet    // "Parameters not set!"
    | CompileFailed       // the compile request errored

  /** Parameters as the memo remembers them: asset, contract, fee token, address. */
  datatype LockParams = LockParams(asset: int, contract: int, feeToken: int, address: string)

  /** JavaScript truthiness of the four arguments: a zero id or an empty address is unset. */
  predicate ParametersSet(asset: int, contract: int, feeToken: int, address: string)
  {
    asset != 0 && contract != 0 && feeToken != 0 && address != ""
  }

  /**
   * `TMPL_ASSET_ID + TMPL_CONTRACT_ID + TMPL_FEETOKEN_ID + TMPL_LOCKER_ADDRESS`:
   * the first two `+` add numbers, the last appends the address to the
   * decimal text of the sum.
   */
  function MemoKey(asset: int, contract: int, feeToken: int, address: string): string
  {
    IntToDecimal(asset + contract + feeToken) + address
  }

  /** Tuples with the same id sum and the same address share a memo key. */
  lemma MemoKeySharedBySum(a: int, c: int, f: int, a': int, c': int, f': int, address: string)
    requires a + c + f == a' + c' + f'
    ensures MemoKey(a, c, f, address) == MemoKey(a', c', f', address)
  {
  }

  /** Hence distinct parameters can collide: ids 1, 2, 3 and 2, 2, 2 share every key. */
  lemma MemoKeyCollides(address: string)
    ensures LockParams(1, 2, 3, address) != LockParams(2, 2, 2, address)
    ensures MemoKey(1, 2, 3, address) == MemoKey(2, 2, 2, address)
  {
  }

  /**
   * With addresses of equal length (Algorand addresses have 58
   * characters) the key determines the id sum and the address.
   */
  lemma MemoKeyDeterminesSum(a: int, c: int, f: int, address: string,
                             a': int, c': int, f': int, address': string)
    requires |address| == |address'|
    requires MemoKey(a, c, f, address) == MemoKey(a', c', f', address')
    ensures a + c + f == a' + c' + f' && address == address'
  {
    var d, d' := IntToDecimal(a + c + f), IntToDecimal(a' + c' + f');
    var k := d + address;
    assert |d| == |d'|;
    assert d == k[..|d|] && d' == k[..|d|];
    assert address == k[|d|..] && address' == k[|d|..];
    IntToDecimalInjective(a + c + f, a' + c' + f');
  }

  /** The first three replacements: the numeric markers by the decimal text of their ids. */
  function FillIds(template: string, asset: int, contract: int, feeToken: int): string
  {
    var t1 := ReplaceAll(template, AssetMarker, IntToDecimal(asset));
    var t2 := ReplaceAll(t1, ContractMarker, IntToDecimal(contract));
    ReplaceAll(t2, FeeTokenMarker, IntToDecimal(feeToken))
  }

  /** All four replacements, in the order of the source: the lock program for these parameters. */
  function Substitute(template: string, asset: int, contract: int, feeToken: int, address: string): string
  {
    ReplaceAll(FillIds(template, asset, contract, feeToken), AddressMarker, address)
  }

  function Program(template: string, p: LockParams): string
  {
    Substitute(template, p.asset, p.contract, p.feeToken, p.address)
  }

  lemma MarkersHaveNoNumberChar()
    ensures NoNumberChar(AssetMarker) && NoNumberChar(ContractMarker)
    ensures NoNumberChar(FeeTokenMarker) && NoNumberChar(AddressMarker)
  {
  }

  /**
   * After the numeric replacements none of the three numeric markers is
   * left: each is removed by its own replacement, and the later ones, whose
   * digits share no character with a marker, do not create it again.
   */
  lemma FillIdsRemovesMarkers(template: string, asset: int, contract: int, feeToken: int)
    ensures !Occurs(FillIds(template, asset, contract, feeToken), AssetMarker)
    ensures !Occurs(FillIds(template, asset, contract, feeToken), ContractMarker)
    ensures !Occurs(FillIds(template, asset, contract, feeToken), FeeTokenMarker)
  {
    MarkersHaveNoNumberChar();
    var da, dc, df := IntToDecimal(asset), IntToDecimal(contract), IntToDecimal(feeToken);
    DecimalDisjoint(asset, AssetMarker);
    DecimalDisjoint(contract, AssetMarker);
    DecimalDisjoint(contract, ContractMarker);
    DecimalDisjoint(feeToken, AssetMarker);
    DecimalDisjoint(feeToken, ContractMarker);
    DecimalDisjoint(feeToken, FeeTokenMarker);
    var t1 := ReplaceAll(template, AssetMarker, da);
    var t2 := ReplaceAll(t1, ContractMarker, dc);
    ReplaceAllRemoves(template, AssetMarker, da);
    ReplaceAllKeepsAbsent(t1, ContractMarker, dc, AssetMarker);
    ReplaceAllRemoves(t1, ContractMarker, dc);
    ReplaceAllKeepsAbsent(t2, FeeTokenMarker, df, AssetMarker);
    ReplaceAllKeepsAbsent(t2, FeeTokenMarker, df, ContractMarker);
    ReplaceAllRemoves(t2, FeeTokenMarker, df);
  }

  /**
   * An address that shares no character with the marker names cannot form
   * one with the text around it, so then no marker is left at all.
   */
  lemma SubstituteRemovesMarkers(template: string, asset: int, contract: int, feeToken: int, address: string)
    requires address != ""
    requires Disjoint(address, AssetMarker) && Disjoint(address, ContractMarker)
    requires Disjoint(address, FeeTokenMarker) && Disjoint(address, AddressMarker)
    ensures var program := Substitute(template, asset, contract, feeToken, address);
            && !Occurs(program, AssetMarker) && !Occurs(program, ContractMarker)
            && !Occurs(program, FeeTokenMarker) && !Occurs(program, AddressMarker)
  {
    var t3 := FillIds(template, asset, contract, feeToken);
    FillIdsRemovesMarkers(template, asset, contract, feeToken);
    ReplaceAllKeepsAbsent(t3, AddressMarker, address, AssetMarker);
    ReplaceAllKeepsAbsent(t3, AddressMarker, address, ContractMarker);
    ReplaceAllKeepsAbsent(t3, AddressMarker, address, FeeTokenMarker);
    ReplaceAllRemoves(t3, AddressMarker, address);
  }

  /** The characters the marker names use. */
  const MarkerAlphabet: string := "ACDEFIKLMNOPRST_"

  /**
   * Every address marker of the text stands between characters that no
   * marker name uses (in the lock program: `addr TMPL_LOCKER_ADDRESS` then
   * a line break), or at an end of the text.
   */
  predicate AddressSlotsBordered(t: string)
  {
    Bordered(Split(t, AddressMarker), MarkerAlphabet)
  }

  /** A text without `_` contains no marker: each has `_` as its fifth character. */
  lemma UnderscoreFree(address: string, q: string)
    requires '_' !in address
    requires q == AssetMarker || q == ContractMarker || q == FeeTokenMarker || q == AddressMarker
    ensures !Occurs(address, q)
  {
    assert q[4] == '_';
    forall i | HasRoom(address, q, i)
      ensures !OccursAt(address, q, i)
    {
      assert address[i..i + |q|][4] == address[i + 4];
    }
  }

  /** The marker names are spelt in the marker alphabet. */
  lemma MarkersInAlphabet(q: string)
    requires q == AssetMarker || q == ContractMarker || q == FeeTokenMarker || q == AddressMarker
    ensures forall j :: 0 <= j < |q| ==> q[j] in MarkerAlphabet
  {
    forall j | 0 <= j < |q|
      ensures q[j] in MarkerAlphabet
    {
    }
  }

  /** The lock program's own use of the address marker is set off that way. */
  lemma LockLineBordered()
    ensures AddressSlotsBordered("addr " + AddressMarker + "\n")
  {
    var w, tail := "addr ", AddressMarker + "\n";
    assert tail[..|AddressMarker|] == AddressMarker;
    assert tail[|AddressMarker|..] == "\n";
    assert Split("\n", AddressMarker) == ["\n"];
    assert Split(tail, AddressMarker) == ["", "\n"];
    SplitPlain(w, tail, AddressMarker);
    assert w + AddressMarker + "\n" == w + tail;
    var pieces := Split(w + tail, AddressMarker);
    assert pieces == [w + "", "\n"];
    assert pieces[0][|pieces[0]| - 1] == ' ' && pieces[1][0] == '\n';
  }

  /**
   * An address, such as an Algorand address in base32, that has no `_`
   * leaves no marker in the filled program, provided the address markers of
   * the template are set off by characters no marker uses.
   */
  lemma SubstituteRemovesMarkersBordered(template: string, asset: int, contract: int, feeToken: int, address: string)
    requires '_' !in address
    requires AddressSlotsBordered(FillIds(template, asset, contract, feeToken))
    ensures var program := Substitute(template, asset, contract, feeToken, address);
            && !Occurs(program, AssetMarker) && !Occurs(program, ContractMarker)
            && !Occurs(program, FeeTokenMarker) && !Occurs(program, AddressMarker)
  {
    var t3 := FillIds(template, asset, contract, feeToken);
    var pieces := Split(t3, AddressMarker);
    FillIdsRemovesMarkers(template, asset, contract, feeToken);
    SubstituteKeepsText(template, asset, contract, feeToken, address);
    SplitPiecesFree(t3, AddressMarker);
    SplitKeepsAbsent(t3, AddressMarker, AssetMarker);
    SplitKeepsAbsent(t3, AddressMarker, ContractMarker);
    SplitKeepsAbsent(t3, AddressMarker, FeeTokenMarker);
    UnderscoreFree(address, AssetMarker);
    UnderscoreFree(address, ContractMarker);
    UnderscoreFree(address, FeeTokenMarker);
    UnderscoreFree(address, AddressMarker);
    MarkersInAlphabet(AssetMarker);
    MarkersInAlphabet(ContractMarker);
    MarkersInAlphabet(FeeTokenMarker);
    MarkersInAlphabet(AddressMarker);
    JoinBordered(pieces, address, AssetMarker, MarkerAlphabet);
    JoinBordered(pieces, address, ContractMarker, MarkerAlphabet);
    JoinBordered(pieces, address, FeeTokenMarker, MarkerAlphabet);
    JoinBordered(pieces, address, AddressMarker, MarkerAlphabet);
  }

  /**
   * Without that restriction an address can complete a marker with the
   * template text that follows the address marker: the address "TMPL_ASSET"
   * before "_ID" spells TMPL_ASSET_ID, although the address contains none of
   * the four marker names.
   */
  lemma AddressMayFormMarker()
    ensures !Occurs("TMPL_ASSET", AssetMarker) && !Occurs("TMPL_ASSET", ContractMarker)
    ensures !Occurs("TMPL_ASSET", FeeTokenMarker) && !Occurs("TMPL_ASSET", AddressMarker)
    ensures Occurs(Substitute(AddressMarker + "_ID", 1, 2, 3, "TMPL_ASSET"), AssetMarker)
  {
    var address := "TMPL_ASSET";
    NoRoom(address, AssetMarker);
    NoRoom(address, ContractMarker);
    NoRoom(address, FeeTokenMarker);
    NoRoom(address, AddressMarker);
    var t := AddressMarker + "_ID";
    NoNumericMarker(t, AssetMarker);
    NoNumericMarker(t, ContractMarker);
    NoNumericMarker(t, FeeTokenMarker);
    ReplaceAbsent(t, AssetMarker, IntToDecimal(1));
    ReplaceAbsent(t, ContractMarker, IntToDecimal(2));
    ReplaceAbsent(t, FeeTokenMarker, IntToDecimal(3));
    assert FillIds(t, 1, 2, 3) == t;
    assert t[..|AddressMarker|] == AddressMarker && t[|AddressMarker|..] == "_ID";
    assert ReplaceAll("_ID", AddressMarker, address) == "_ID";
    var program := Substitute(t, 1, 2, 3, address);
    assert program == address + "_ID";
    assert program[0..13] == AssetMarker;
    assert OccursAt(program, AssetMarker, 0);
  }

  /**
   * The address marker followed by "_ID" holds no numeric marker: only the
   * first window starts with 'T', and it differs at position 5.
   */
  lemma NoNumericMarker(t: string, q: string)
    requires t == AddressMarker + "_ID"
    requires q == AssetMarker || q == ContractMarker || q == FeeTokenMarker
    ensures !Occurs(t, q)
  {
    forall i | HasRoom(t, q, i)
      ensures !OccursAt(t, q, i)
    {
      var w := t[i..i + |q|];
      if i == 0 {
        assert w[5] == t[5] == 'L' != q[5];
      } else {
        assert w[0] == t[i] != 'T';
      }
    }
  }

  /**
   * The address replacement keeps every other character: the program is the
   * id-filled text cut at the address markers and joined with the address,
   * and joining the same pieces with the marker gives the id-filled text back.
   */
  lemma SubstituteKeepsText(template: string, asset: int, contract: int, feeToken: int, address: string)
    ensures var t3 := FillIds(template, asset, contract, feeToken);
            && Substitute(template, asset, contract, feeToken, address) == Join(Split(t3, AddressMarker), address)
            && Join(Split(t3, AddressMarker), AddressMarker) == t3
  {
    var t3 := FillIds(template, asset, contract, feeToken);
    ReplaceAllIsJoin(t3, AddressMarker, address);
    SplitJoin(t3, AddressMarker);
  }

  /** A text without any marker is sent to the compiler as it is. */
  lemma SubstituteWithoutMarkers(template: string, asset: int, contract: int, feeToken: int, address: string)
    requires !Occurs(template, AssetMarker) && !Occurs(template, ContractMarker)
    requires !Occurs(template, FeeTokenMarker) && !Occurs(template, AddressMarker)
    ensures Substitute(template, asset, contract, feeToken, address) == template
  {
    ReplaceAbsent(template, AssetMarker, IntToDecimal(asset));
    ReplaceAbsent(template, ContractMarker, IntToDecimal(contract));
    ReplaceAbsent(template, FeeTokenMarker, IntToDecimal(feeToken));
    ReplaceAbsent(template, AddressMarker, address);
  }

  /**
   * The templater object.  `lookUpMap` is the memo; the ghost `origin`
   * records, for each key, the parameters whose compile filled it.
   */
  class Tinylock {
    var lookUpMap: map<string, CompileResult>
    ghost var origin: map<string, LockParams>
    const contractTemplate: string
    const compile: string -> Option<CompileResult>

    /** Every memo entry is the compile result of the program for parameters with that key. */
    ghost predicate Valid()
      reads this
    {
      && origin.Keys == lookUpMap.Keys
      && forall k :: k in lookUpMap ==>
           && MemoKey(origin[k].asset, origin[k].contract, origin[k].feeToken, origin[k].address) == k
           && compile(Program(contractTemplate, origin[k])) == Some(lookUpMap[k])
    }

    /** The program text is fixed here and never changed afterwards; the memo starts empty. */
    constructor(template: string, compiler: string -> Option<CompileResult>)
      ensures Valid()
      ensures contractTemplate == template && compile == compiler && lookUpMap == map[]
    {
      contractTemplate := template;
      compile := compiler;
      lookUpMap := map[];
      origin := map[];
    }

    /**
     * `sendToCompile`: refuses unset parameters; on a memo hit returns the
     * stored result without a request; otherwise sends the filled program
     * (`request`) and, when the compile succeeds, stores its result under
     * the key, leaving every other entry as it was.
     */
    method SendToCompile(asset: int, contract: int, feeToken: int, address: string)
      returns (r: Result<CompileResult, Error>, request: Option<string>)
      requires Valid()
      modifies this
      ensures Valid()
      ensures !ParametersSet(asset, contract, feeToken, address) ==>
                r == Failure(ParametersNotSet) && request == None && lookUpMap == old(lookUpMap)
      ensures ParametersSet(asset, contract, feeToken, address) ==>
                var key := MemoKey(asset, contract, feeToken, address);
                if key in old(lookUpMap) then
                  r == Success(old(lookUpMap)[key]) && request == None && lookUpMap == old(lookUpMap)
                else
                  var program := Substitute(contractTemplate, asset, contract, feeToken, address);
                  && request == Some(program)
                  && match compile(program)
                     case None => r == Failure(CompileFailed) && lookUpMap == old(lookUpMap)
                     case Some(c) => r == Success(c) && lookUpMap == old(lookUpMap)[key := c]
      ensures r.Success? ==>
                var key := MemoKey(asset, contract, feeToken, address);
                key in origin && MemoKey(origin[key].asset, origin[key].contract, origin[key].feeToken, origin[key].address) == key
                && compile(Program(contractTemplate, origin[key])) == Some(r.value)
    {
      if asset == 0 || contract == 0 || feeToken == 0 || address == "" {
        return Failure(ParametersNotSet), None;
      }
      var key := MemoKey(asset, contract, feeToken, address);
      if key in lookUpMap {
        return Success(lookUpMap[key]), None;
      }
      var modifiedTemplate := ReplaceAll(contractTemplate, AssetMarker, IntToDecimal(asset));
      modifiedTemplate := ReplaceAll(modifiedTemplate, ContractMarker, IntToDecimal(contract));
      modifiedTemplate := ReplaceAll(modifiedTemplate, FeeTokenMarker, IntToDecimal(feeToken));
      modifiedTemplate := ReplaceAll(modifiedTemplate, AddressMarker, address);
      request := Some(modifiedTemplate);
      var compiled := compile(modifiedTemplate);
      if compiled.None? {
        return Failure(CompileFailed), request;
      }
      lookUpMap := lookUpMap[key := compiled.value];
      origin := origin[key := LockParams(asset, contract, feeToken, address)];
      r := Success(compiled.value);
    }
  }
}

/**
 * The pool-signature generator applied to the pool program binary: the
 * checked entry point and the size of what it produces.
 */
module TinymanPool {
  import opened Wrappers
  import opened Varint
  import opened PoolBinary
  import opened TinymanSignature

  /**
   * `getTinymanPoolSignatureAccount` up to the program bytes: refuses a
   * missing id, orders the ids so that the larger is TMPL_ASSET_ID_1, and
   * patches the template.
   */
  method GetPoolSignatureBytes(tinyman: Tinyman, asset1: Option<nat>, asset2: Option<nat>)
    returns (r: Result<seq<byte>, Error>)
    ensures r.Failure? <==> asset1.None? || asset2.None?
    ensures r.Failure? ==> r.error == ParametersNotSet
    ensures r.Success? ==>
              var (hi, lo) := if asset1.value < asset2.value then (asset2.value, asset1.value)
                              else (asset1.value, asset2.value);
              hi >= lo && r.value == PoolProgram(PoolTemplate, hi, lo, tinyman.validatorAppId)
  {
    if asset1.None? || asset2.None? {
      return Failure(ParametersNotSet);
    }
    var id1, id2 := asset1.value, asset2.value;
    if id1 < id2 {
      var tmp := id1;
      id1 := id2;
      id2 := tmp;
    }
    var lookup := ValueLookUp(id1, id2, tinyman.validatorAppId);
    PoolTemplateLength();
    TemplateTableWellFormed(|PoolTemplate|);
    PoolEncodings(id1, id2, tinyman.validatorAppId);
    var bytes := PatchTemplate(PoolTemplate, TemplateTable, lookup);
    r := Success(bytes);
  }

  /** With 64-bit values the drift is between 0 and 27, so the program never grows. */
  lemma PoolProgramLength(asset1: nat, asset2: nat, validator: nat)
    requires asset1 < 0x1_0000_0000_0000_0000 && asset2 < 0x1_0000_0000_0000_0000
    requires validator < 0x1_0000_0000_0000_0000
    ensures |PoolProgram(PoolTemplate, asset1, asset2, validator)|
         == 851 + |UVarint(asset1)| + |UVarint(asset2)| + |UVarint(validator)|
    ensures 854 <= |PoolProgram(PoolTemplate, asset1, asset2, validator)| <= 881
  {
    PoolTemplateLength();
    var t := PoolTemplate;
    PoolProgramLayout(t, asset1, asset2, validator);
    UVarintFits64(asset1);
    UVarintFits64(asset2);
    UVarintFits64(validator);
  }
}

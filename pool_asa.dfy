/**
 * `searchPoolAsa`: the liquidity pool of two assets.  The pool's account
 * is the one behind the pool program for the two ids, the larger first;
 * its first created asset is the pool token, and the issued pool tokens
 * are the `ilt` slot of its first local state less the 1000 locked at
 * pool creation.  Any missing piece is an error of the whole query.
 */
module PoolAsa {
  import opened Wrappers
  import opened Varint
  import opened PoolBinary
  import opened TinymanSignature
  import opened TinymanPool
  import Discovery

  datatype PoolInfo = PoolInfo(poolAccount: Discovery.AccountInfo, poolAsaId: nat, issuedLiquidityTokens: int)

  datatype PoolError =
    | SignatureRefused(reason: Error)   // the pool signature generator threw
    | LookupFailed                      // the pool account could not be fetched
    | MissingField                      // no created asset, no local state, or no `ilt` slot

  /** The value JavaScript's `<` compares: null counts as 0. */
  function CompareValue(id: Option<nat>): nat
  {
    if id.None? then 0 else id.value
  }

  /** The value of the first slot keyed `ilt`, if any. */
  function FirstIlt(kvs: seq<Discovery.KeyValue>): (r: Option<nat>)
    ensures r.None? <==> forall i :: 0 <= i < |kvs| ==> kvs[i].key != "ilt"
    ensures r.Some? ==> exists i :: 0 <= i < |kvs| && kvs[i].key == "ilt" && kvs[i].uint == r.value
                                    && forall j :: 0 <= j < i ==> kvs[j].key != "ilt"
  {
    if kvs == [] then None
    else if kvs[0].key == "ilt" then Some(kvs[0].uint)
    else
      var r := FirstIlt(kvs[1..]);
      assert forall i :: 1 <= i < |kvs| ==> kvs[i] == kvs[1..][i - 1];
      if r.Some? then
        ghost var k :| 0 <= k < |kvs[1..]| && kvs[1..][k].key == "ilt" && kvs[1..][k].uint == r.value
                       && forall j :: 0 <= j < k ==> kvs[1..][j].key != "ilt";
        assert kvs[k + 1].key == "ilt" && kvs[k + 1].uint == r.value;
        assert forall j :: 0 <= j < k + 1 ==> kvs[j].key != "ilt";
        r
      else r
  }

  /** What the pool account's record yields. */
  function PoolInfoOf(account: Option<Discovery.AccountInfo>): (r: Result<PoolInfo, PoolError>)
    ensures r.Success? ==>
              && account.Some? && r.value.poolAccount == account.value
              && |account.value.createdAssets| > 0 && r.value.poolAsaId == account.value.createdAssets[0]
              && |account.value.localState| > 0
              && FirstIlt(account.value.localState[0]) == Some(r.value.issuedLiquidityTokens + 1000)
    ensures account.None? ==> r == Failure(LookupFailed)
    ensures r.Failure? && account.Some? ==>
              && r.error == MissingField
              && (|account.value.createdAssets| == 0 || |account.value.localState| == 0
                  || FirstIlt(account.value.localState[0]).None?)
  {
    match account
    case None => Failure(LookupFailed)
    case Some(a) =>
      if |a.createdAssets| == 0 || |a.localState| == 0 then Failure(MissingField)
      else match FirstIlt(a.localState[0])
        case None => Failure(MissingField)
        case Some(ilt) => Success(PoolInfo(a, a.createdAssets[0], ilt - 1000))
  }

  /**
   * The query for two asset ids in either order.  A null id makes the
   * signature generator refuse with "Parameters not set!".  Otherwise the
   * pool program is built for the larger and then the smaller id, and the
   * account behind it (from `pool`, which stands for hashing the program to
   * an address and fetching the account) decides what is reported.
   */
  method SearchPoolAsa(tinyman: Tinyman, asa1: Option<nat>, asa2: Option<nat>,
                       pool: seq<byte> -> Option<Discovery.AccountInfo>)
    returns (r: Result<PoolInfo, PoolError>)
    ensures asa1.None? || asa2.None? ==> r == Failure(SignatureRefused(ParametersNotSet))
    ensures asa1.Some? && asa2.Some? ==>
              var a, b := asa1.value, asa2.value;
              var hi, lo := (if a < b then b else a), (if a < b then a else b);
              r == PoolInfoOf(pool(PoolProgram(PoolTemplate, hi, lo, tinyman.validatorAppId)))
  {
    var id1, id2 := asa1, asa2;
    if CompareValue(id1) < CompareValue(id2) {
      var tmp := id1;
      id1 := id2;
      id2 := tmp;
    }
    var program := GetPoolSignatureBytes(tinyman, id1, id2);
    if program.Failure? {
      return Failure(SignatureRefused(program.error));
    }
    r := PoolInfoOf(pool(program.value));
  }
}

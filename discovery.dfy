/**
 * The per-transaction part of `searchToken`: which lock transactions name
 * an account holding locked tokens of the target asset, and what is
 * reported for each.  Two revisions are modelled side by side: the older
 * one (`Src`) reads a note either as a 58-character address or as the
 * big-endian number in its bytes, and keeps an empty-balance candidate as a
 * partial entry; the newer one (`Dist`) classifies notes with `parseNote`
 * and drops empty balances.
 *
 * The outside world (UTF-8 decoding, compiling the lock signature and
 * looking up its account, asset parameters, the clock) is a parameter.
 * A failed lookup or a missing field inside the lookup pipeline ends in
 * its `catchError`, so the transaction is dropped; a lock signature asked
 * for with unset parameters throws outside that pipeline, so the whole
 * search fails.
 */
module Discovery {
  import opened Wrappers
  import opened JsNumber
  import Notes
  import TinylockSignature
  import Text

  /** An indexer transaction: its sender and the bytes of its note (empty when there is none). */
  datatype Transaction = Transaction(sender: string, note: seq<byte>)

  /** The lock application and lock-fee asset the signatures of one transaction list are compiled for. */
  datatype LockIds = LockIds(lockApp: int, lockAsa: int)

  /** One transaction source of the newer revision, with its own lock ids. */
  datatype TransactionList = TransactionList(transactions: seq<Transaction>, ids: LockIds)

  /** A local-state slot; `key` is the decoded key text. */
  datatype KeyValue = KeyValue(key: string, uint: nat)

  datatype Holding = Holding(assetId: nat, amount: int)

  /** An account as the indexer reports it: local-state key-value lists, holdings, created assets. */
  datatype AccountInfo = AccountInfo(localState: seq<seq<KeyValue>>, assets: seq<Holding>, createdAssets: seq<nat>)

  datatype AssetParams = AssetParams(name: string, total: int)

  /**
   * What a search reads from outside: the UTF-8 text of note bytes, the
   * account behind the lock signature compiled for some parameters (`None`
   * when compiling or the lookup fails), an asset's parameters, and the
   * clock in milliseconds.
   */
  datatype World = World(
    utf8: seq<byte> -> string,
    lockAccount: TinylockSignature.LockParams -> Option<AccountInfo>,
    asset: nat -> Option<AssetParams>,
    now: int)

  datatype Version = Src | Dist

  /**
   * One search: the revision, the target asset, the optional
   * `issuedLiquidityTokens` argument, and the world it runs against.
   */
  datatype Search = Search(version: Version, asa: int, issued: Option<int>, world: World)

  /** A recognised lock transaction: whose lock it is and with which asset id the signature is compiled. */
  datatype Candidate = Candidate(account: string, signatureAsa: int, migrated: bool)

  /**
   * A reported lock.  `Partial` is the older revision's entry for an empty
   * balance (only the account and the migration flag are set); `migrated`
   * false stands for an absent field.  `lockTime` is the lock's end in
   * seconds, `amount` the share of the asset in percent.
   */
  datatype Entry =
    | Partial(account: string, migrated: bool)
    | Full(account: string, migrated: bool, lockTime: nat, unlocked: bool, asa: nat, name: string, amount: int)

  datatype Outcome = Drop | Emit(entry: Entry)

  /**
   * What a transaction's note says.  Without a note there is nothing.  A
   * 58-character text is the locker's address (a migrated lock, compiled
   * for the target); otherwise the lock is the sender's, and the note must
   * be the target asset - in the older revision by the number its bytes
   * spell, in the newer one as `parseNote` decides.
   */
  function Classify(version: Version, tx: Transaction, asa: int, utf8: seq<byte> -> string): (c: Option<Candidate>)
    ensures c.Some? ==> |tx.note| > 0
    ensures c.Some? && c.value.migrated ==> c.value == Candidate(utf8(tx.note), asa, true) && |c.value.account| == 58
    ensures c.Some? && !c.value.migrated ==> c.value.account == tx.sender
    ensures c.Some? && (version == Src || asa != 0) ==> c.value.signatureAsa == asa
  {
    if |tx.note| == 0 then None
    else
      var text := utf8(tx.note);
      match version
      case Src =>
        if |text| == 58 then Some(Candidate(text, asa, true))
        else if ParseInt(HexOf(tx.note), 16) == Some(asa) then Some(Candidate(tx.sender, asa, false))
        else None
      case Dist =>
        var r := Notes.ParseNote(tx.note, text, asa);
        if r.isAddress then Some(Candidate(r.result.text, asa, true))
        else if r.isNumber then Some(Candidate(tx.sender, r.result.value, false))
        else None
  }

  /** The older revision takes a non-address note exactly when its bytes spell the target. */
  lemma {:induction false} SrcMatchesBytes(tx: Transaction, asa: int, utf8: seq<byte> -> string)
    requires |tx.note| > 0 && |utf8(tx.note)| != 58
    ensures Classify(Src, tx, asa, utf8).Some? <==> BigEndian(tx.note) == asa
  {
    ParseHexOf(tx.note);
  }

  /** For a truthy target, every note the older revision recognises the newer one recognises the same way. */
  lemma {:induction false} SrcRecognisedByDist(tx: Transaction, asa: int, utf8: seq<byte> -> string)
    requires asa != 0 && Classify(Src, tx, asa, utf8).Some?
    ensures Classify(Dist, tx, asa, utf8) == Classify(Src, tx, asa, utf8)
  {
    var text := utf8(tx.note);
    if |text| == 58 {
      assert Classify(Src, tx, asa, utf8) == Some(Candidate(text, asa, true));
      assert Notes.ParseNote(tx.note, text, asa).isAddress;
    } else {
      assert Classify(Src, tx, asa, utf8) == Some(Candidate(tx.sender, asa, false));
      ParseHexOf(tx.note);
      Notes.BinaryNoteMatches(tx.note, text, asa);
    }
  }

  /** The newer revision also recognises a note whose text is the target in decimal; the older does not. */
  lemma {:induction false} DistAlsoReadsDecimal(tx: Transaction, asa: int, utf8: seq<byte> -> string)
    requires asa != 0 && |tx.note| > 0 && utf8(tx.note) == Text.IntToDecimal(asa)
    requires |utf8(tx.note)| != 58 && BigEndian(tx.note) != asa
    ensures Classify(Dist, tx, asa, utf8) == Some(Candidate(tx.sender, asa, false))
    ensures Classify(Src, tx, asa, utf8).None?
  {
    Notes.DecimalNoteMatches(tx.note, asa, []);
    assert Text.IntToDecimal(asa) + [] == Text.IntToDecimal(asa);
    ParseHexOf(tx.note);
  }

  /** In both revisions a note whose text has 58 characters is a migrated lock of that address. */
  lemma {:induction false} MigrationRecognised(version: Version, tx: Transaction, asa: int, utf8: seq<byte> -> string)
    requires |tx.note| > 0 && |utf8(tx.note)| == 58
    ensures Classify(version, tx, asa, utf8) == Some(Candidate(utf8(tx.note), asa, true))
  {
  }

  /**
   * The newer revision recognises a note exactly when `parseNote` flags it
   * as an address or a number; a number is the sender's lock, compiled for
   * the number read.
   */
  lemma {:induction false} DistRecognises(tx: Transaction, asa: int, utf8: seq<byte> -> string)
    ensures var r := Notes.ParseNote(tx.note, utf8(tx.note), asa);
            var c := Classify(Dist, tx, asa, utf8);
            && (c.Some? <==> |tx.note| > 0 && (r.isAddress || r.isNumber))
            && (|tx.note| > 0 && r.isNumber ==> c == Some(Candidate(tx.sender, r.result.value, false)))
  {
  }

  /** The `issuedLiquidityTokens` argument when it is truthy, else the asset's total supply. */
  function Divisor(issued: Option<int>, total: int): int
  {
    if issued.Some? && issued.value != 0 then issued.value else total
  }

  /**
   * What the lock account reports for a candidate: dropped when its first
   * holding or first local-state slot is missing, when the asset cannot be
   * looked up or when the divisor is zero (BigInt division throws); an
   * empty balance is a partial entry in the older revision and dropped in
   * the newer one.
   */
  function Evaluate(version: Version, c: Candidate, info: AccountInfo, issued: Option<int>, world: World): (o: Outcome)
    ensures o.Emit? ==> o.entry.account == c.account && o.entry.migrated == c.migrated
  {
    if |info.assets| == 0 then Drop
    else
      var amount := info.assets[0].amount;
      if amount <= 0 then
        if version == Src then Emit(Partial(c.account, c.migrated)) else Drop
      else if |info.localState| == 0 || |info.localState[0]| == 0 then Drop
      else
        var lockTime := info.localState[0][0].uint;
        var assetId := info.assets[0].assetId;
        match world.asset(assetId)
        case None => Drop
        case Some(params) =>
          var divisor := Divisor(issued, params.total);
          if divisor == 0 then Drop
          else Emit(Full(c.account, c.migrated, lockTime, lockTime * 1000 <= world.now,
                         assetId, params.name, TruncDiv(amount * 100, divisor)))
  }

  /**
   * A full entry is reported only for a positive balance of the first
   * holding; it names that holding's asset, is unlocked exactly when the
   * lock's end in milliseconds is not after now, and its amount is the
   * integer percentage of the balance in the divisor.
   */
  lemma {:induction false} FullEntry(version: Version, c: Candidate, info: AccountInfo, issued: Option<int>, world: World)
    requires var o := Evaluate(version, c, info, issued, world); o.Emit? && o.entry.Full?
    ensures var e := Evaluate(version, c, info, issued, world).entry;
            |info.assets| > 0 && info.assets[0].amount > 0 && e.asa == info.assets[0].assetId
            && world.asset(e.asa).Some? && e.name == world.asset(e.asa).value.name
            && |info.localState| > 0 && |info.localState[0]| > 0 && e.lockTime == info.localState[0][0].uint
            && (e.unlocked <==> e.lockTime * 1000 <= world.now)
            && var d := Divisor(issued, world.asset(e.asa).value.total);
               d != 0 && e.amount == TruncDiv(info.assets[0].amount * 100, d)
  {
  }

  /** The revisions differ only on an empty balance: the older keeps a partial entry, the newer drops it. */
  lemma {:induction false} AmountRule(c: Candidate, info: AccountInfo, issued: Option<int>, world: World)
    requires |info.assets| > 0
    ensures info.assets[0].amount <= 0 ==>
              Evaluate(Src, c, info, issued, world) == Emit(Partial(c.account, c.migrated))
              && Evaluate(Dist, c, info, issued, world) == Drop
    ensures info.assets[0].amount > 0 ==>
              Evaluate(Src, c, info, issued, world) == Evaluate(Dist, c, info, issued, world)
  {
  }

  /** A zero `issuedLiquidityTokens` is falsy: the same as passing none. */
  lemma {:induction false} ZeroIssuedIsAbsent(version: Version, c: Candidate, info: AccountInfo, world: World)
    ensures Evaluate(version, c, info, Some(0), world) == Evaluate(version, c, info, None, world)
  {
  }

  /**
   * The share is the percentage rounded down: for a positive balance and
   * divisor it brackets `100 * amount / divisor`, and it is at most 100
   * when the balance does not exceed the divisor.
   */
  lemma {:induction false} SharePercent(amount: int, divisor: int)
    requires amount > 0 && divisor > 0
    ensures TruncDiv(amount * 100, divisor) * divisor <= amount * 100 < (TruncDiv(amount * 100, divisor) + 1) * divisor
    ensures amount <= divisor ==> 0 <= TruncDiv(amount * 100, divisor) <= 100
  {
    var a := amount * 100;
    var q := a / divisor;
    assert TruncDiv(a, divisor) == q;
    assert a == q * divisor + a % divisor;
    assert (q + 1) * divisor == q * divisor + divisor;
    if amount <= divisor {
      assert (q - 100) * divisor == q * divisor - 100 * divisor;
      NonPositiveFactor(q - 100, divisor);
    }
  }

  lemma {:induction false} NonPositiveFactor(x: int, d: int)
    requires d > 0 && x * d <= 0
    ensures x <= 0
  {
  }

  /** A negative divisor (fewer than 1000 issued pool tokens) gives no positive share. */
  lemma {:induction false} NegativeDivisor(amount: int, divisor: int)
    requires amount > 0 && divisor < 0
    ensures TruncDiv(amount * 100, divisor) <= 0
  {
  }

  /** Once a lock reads as unlocked it stays so at every later time, and nothing else changes. */
  lemma {:induction false} UnlockedStays(version: Version, c: Candidate, info: AccountInfo, issued: Option<int>, world: World, later: int)
    requires world.now <= later
    ensures var o1 := Evaluate(version, c, info, issued, world);
            var o2 := Evaluate(version, c, info, issued, world.(now := later));
            (o1.Emit? <==> o2.Emit?)
            && (o1.Emit? && o1.entry.Full? ==> o2.entry.Full? && o2.entry == o1.entry.(unlocked := o2.entry.unlocked)
                                               && (o1.entry.unlocked ==> o2.entry.unlocked))
  {
  }

  /**
   * The converse of `FullEntry`: a positive first balance, a first
   * local-state slot, a known asset and a non-zero divisor give a full
   * entry with the fields read from them.
   */
  lemma {:induction false} EmitsFull(version: Version, c: Candidate, info: AccountInfo, issued: Option<int>, world: World)
    requires |info.assets| > 0 && info.assets[0].amount > 0
    requires |info.localState| > 0 && |info.localState[0]| > 0
    requires world.asset(info.assets[0].assetId).Some?
    requires Divisor(issued, world.asset(info.assets[0].assetId).value.total) != 0
    ensures var id := info.assets[0].assetId;
            var params := world.asset(id).value;
            var lockTime := info.localState[0][0].uint;
            Evaluate(version, c, info, issued, world)
            == Emit(Full(c.account, c.migrated, lockTime, lockTime * 1000 <= world.now, id, params.name,
                         TruncDiv(info.assets[0].amount * 100, Divisor(issued, params.total))))
  {
  }

  /**
   * When a lock account yields nothing: no holding, an empty balance in
   * the newer revision, or, for a positive balance, a missing local-state
   * slot, an unknown asset or a zero divisor.
   */
  lemma {:induction false} DropsExactly(version: Version, c: Candidate, info: AccountInfo, issued: Option<int>, world: World)
    ensures Evaluate(version, c, info, issued, world) == Drop
            <==> || |info.assets| == 0
                 || (info.assets[0].amount <= 0 && version == Dist)
                 || (info.assets[0].amount > 0
                     && (|info.localState| == 0 || |info.localState[0]| == 0
                         || world.asset(info.assets[0].assetId).None?
                         || Divisor(issued, world.asset(info.assets[0].assetId).value.total) == 0))
  {
  }

  /** A found lock account whose evaluation emits an entry is reported with that entry. */
  lemma {:induction false} ReportsEmitted(q: Search, ids: LockIds, c: Candidate, info: AccountInfo)
    requires q.world.lockAccount(TinylockSignature.LockParams(c.signatureAsa, ids.lockApp, ids.lockAsa, c.account)) == Some(info)
    requires Evaluate(q.version, c, info, q.issued, q.world).Emit?
    ensures Report(q, ids, c) == [Evaluate(q.version, c, info, q.issued, q.world).entry]
  {
  }

  /**
   * The converse of `ReportsEmitted`: a candidate yields no entry exactly
   * when its lock account is not found or evaluates to nothing.
   */
  lemma {:induction false} ReportsNothing(q: Search, ids: LockIds, c: Candidate)
    ensures var info := q.world.lockAccount(TinylockSignature.LockParams(c.signatureAsa, ids.lockApp, ids.lockAsa, c.account));
            Report(q, ids, c) == [] <==> info.None? || Evaluate(q.version, c, info.value, q.issued, q.world) == Drop
  {
  }

  /** The state of the matcher: whether the search failed, `asaSeen`, and the entries reported so far. */
  datatype Scan = Scan(aborted: bool, asaSeen: map<int, seq<string>>, entries: seq<Entry>)

  /** The accounts `asaSeen` lists for `asa`. */
  function Seen(s: Scan, asa: int): seq<string>
  {
    if asa in s.asaSeen then s.asaSeen[asa] else []
  }

  /**
   * One transaction.  An unrecognised one changes nothing; a recognised one
   * is admitted.
   */
  function Step(q: Search, ids: LockIds, s: Scan, tx: Transaction): Scan
  {
    if s.aborted then s
    else match Classify(q.version, tx, q.asa, q.world.utf8)
      case None => s
      case Some(c) => Admit(q, ids, s, c)
  }

  /**
   * A recognised transaction.  An account already listed for the target
   * changes nothing; otherwise the account is listed, unset lock
   * parameters fail the search, and the lock account decides whether an
   * entry is reported.
   */
  function Admit(q: Search, ids: LockIds, s: Scan, c: Candidate): Scan
  {
    if q.asa in s.asaSeen && c.account in s.asaSeen[q.asa] then s
    else
      var seen := s.asaSeen[q.asa := Seen(s, q.asa) + [c.account]];
      if !TinylockSignature.ParametersSet(c.signatureAsa, ids.lockApp, ids.lockAsa, c.account) then
        Scan(true, seen, s.entries)
      else Scan(false, seen, s.entries + Report(q, ids, c))
  }

  /** The entry the lock account yields for an admitted candidate, if any. */
  function Report(q: Search, ids: LockIds, c: Candidate): (es: seq<Entry>)
    ensures |es| <= 1 && forall e | e in es :: e.account == c.account
  {
    match q.world.lockAccount(TinylockSignature.LockParams(c.signatureAsa, ids.lockApp, ids.lockAsa, c.account))
    case None => []
    case Some(info) =>
      match Evaluate(q.version, c, info, q.issued, q.world)
      case Drop => []
      case Emit(e) => [e]
  }

  /** The matcher after the transactions `txs`, in order, from an empty `asaSeen`. */
  function Run(q: Search, ids: LockIds, txs: seq<Transaction>): Scan
    decreases |txs|
  {
    if txs == [] then Scan(false, map[], [])
    else Step(q, ids, Run(q, ids, txs[..|txs| - 1]), txs[|txs| - 1])
  }

  /** What the search yields: nothing when it failed, else the entries. */
  function Found(s: Scan): Option<seq<Entry>>
  {
    if s.aborted then None else Some(s.entries)
  }

  /**
   * `searchToken` over one transaction list: classify each transaction,
   * skip an account already in `asaSeen[asa]`, list it, fail on unset lock
   * parameters, and report what its lock account says.
   */
  method MatchTransactions(q: Search, ids: LockIds, txs: seq<Transaction>) returns (r: Option<seq<Entry>>)
    ensures r == Found(Run(q, ids, txs))
    ensures r.None? <==> exists i :: UnsetAt(q, ids, txs, i)
  {
    AbortsExactly(q, ids, txs);
    var asaSeen: map<int, seq<string>> := map[];
    var found: seq<Entry> := [];
    var i := 0;
    while i < |txs|
      invariant 0 <= i <= |txs|
      invariant Run(q, ids, txs[..i]) == Scan(false, asaSeen, found)
    {
      assert txs[..i + 1][..i] == txs[..i];
      var tx := txs[i];
      ghost var before := Scan(false, asaSeen, found);
      var candidate := Classify(q.version, tx, q.asa, q.world.utf8);
      assert Run(q, ids, txs[..i + 1]) == if candidate.None? then before else Admit(q, ids, before, candidate.value);
      if candidate.Some? {
        var c := candidate.value;
        if !(q.asa in asaSeen && c.account in asaSeen[q.asa]) {
          if q.asa in asaSeen {
            asaSeen := asaSeen[q.asa := asaSeen[q.asa] + [c.account]];
          } else {
            asaSeen := asaSeen[q.asa := [c.account]];
            assert [] + [c.account] == [c.account];
          }
          if !TinylockSignature.ParametersSet(c.signatureAsa, ids.lockApp, ids.lockAsa, c.account) {
            AbortPersists(q, ids, txs, i + 1);
            return None;
          }
          var info := q.world.lockAccount(TinylockSignature.LockParams(c.signatureAsa, ids.lockApp, ids.lockAsa, c.account));
          if info.Some? {
            var outcome := Evaluate(q.version, c, info.value, q.issued, q.world);
            if outcome.Emit? {
              found := found + [outcome.entry];
            }
          }
          assert found == before.entries + Report(q, ids, c);
        }
      }
      i := i + 1;
    }
    assert txs[..i] == txs;
    return Some(found);
  }

  /** Once the search has failed, later transactions do not revive it. */
  lemma {:induction false} AbortPersists(q: Search, ids: LockIds, txs: seq<Transaction>, k: nat)
    requires k <= |txs| && Run(q, ids, txs[..k]).aborted
    ensures Run(q, ids, txs).aborted
    decreases |txs| - k
  {
    if k == |txs| {
      assert txs[..k] == txs;
    } else {
      var init := txs[..|txs| - 1];
      assert init[..k] == txs[..k];
      AbortPersists(q, ids, init, k);
    }
  }

  /** The accounts of the recognised transactions, in order, repeats included. */
  function Accounts(q: Search, txs: seq<Transaction>): seq<string>
    decreases |txs|
  {
    if txs == [] then []
    else
      var c := Classify(q.version, txs[|txs| - 1], q.asa, q.world.utf8);
      Accounts(q, txs[..|txs| - 1]) + (if c.Some? then [c.value.account] else [])
  }

  /** The first occurrence of every element, in order. */
  function Dedup(xs: seq<string>): seq<string>
    decreases |xs|
  {
    if xs == [] then []
    else if xs[|xs| - 1] in xs[..|xs| - 1] then Dedup(xs[..|xs| - 1])
    else Dedup(xs[..|xs| - 1]) + [xs[|xs| - 1]]
  }

  lemma {:induction false} DedupElements(xs: seq<string>)
    ensures forall x :: x in Dedup(xs) <==> x in xs
    decreases |xs|
  {
    if xs != [] {
      var init := xs[..|xs| - 1];
      DedupElements(init);
      assert xs == init + [xs[|xs| - 1]];
    }
  }

  lemma {:induction false} DedupDistinct(xs: seq<string>)
    ensures forall i, j :: 0 <= i < j < |Dedup(xs)| ==> Dedup(xs)[i] != Dedup(xs)[j]
    decreases |xs|
  {
    if xs != [] {
      var init := xs[..|xs| - 1];
      DedupDistinct(init);
      DedupElements(init);
    }
  }

  /**
   * One step in outline: an unrecognised transaction or a listed account
   * leaves the state alone; a new account is appended to `asaSeen[asa]`,
   * the search fails exactly when its lock parameters are unset, and at
   * most one entry, for that account, is added.
   */
  lemma {:induction false} StepShape(q: Search, ids: LockIds, s: Scan, tx: Transaction)
    requires !s.aborted
    ensures var t := Step(q, ids, s, tx);
            var c := Classify(q.version, tx, q.asa, q.world.utf8);
            if c.None? || c.value.account in Seen(s, q.asa) then t == s
            else t.asaSeen == s.asaSeen[q.asa := Seen(s, q.asa) + [c.value.account]]
                 && (t.aborted <==> !TinylockSignature.ParametersSet(c.value.signatureAsa, ids.lockApp, ids.lockAsa, c.value.account))
                 && (t.entries == s.entries
                     || (|t.entries| == |s.entries| + 1 && t.entries[..|s.entries|] == s.entries
                         && t.entries[|s.entries|].account == c.value.account))
  {
    var t := Step(q, ids, s, tx);
    var c := Classify(q.version, tx, q.asa, q.world.utf8);
    if c.Some? && c.value.account !in Seen(s, q.asa) {
      var es := Report(q, ids, c.value);
      if !TinylockSignature.ParametersSet(c.value.signatureAsa, ids.lockApp, ids.lockAsa, c.value.account) {
        assert t.entries == s.entries;
      } else if |es| == 1 {
        assert t.entries == s.entries + es && t.entries[|s.entries|] == es[0];
        assert t.entries[..|s.entries|] == s.entries;
      } else {
        assert es == [] && t.entries == s.entries + [];
      }
    }
  }

  /** Without a failure, `asaSeen` has an entry for the target asset only. */
  lemma {:induction false} SeenKeys(q: Search, ids: LockIds, txs: seq<Transaction>)
    requires !Run(q, ids, txs).aborted
    ensures Run(q, ids, txs).asaSeen.Keys <= {q.asa}
    decreases |txs|
  {
    if txs != [] {
      var init := txs[..|txs| - 1];
      assert !Run(q, ids, init).aborted;
      SeenKeys(q, ids, init);
      StepShape(q, ids, Run(q, ids, init), txs[|txs| - 1]);
    }
  }

  /**
   * Without a failure, `asaSeen[asa]` lists exactly the accounts of the
   * recognised transactions, each once, at its first occurrence.
   */
  lemma {:induction false} SeenIsDedup(q: Search, ids: LockIds, txs: seq<Transaction>)
    requires !Run(q, ids, txs).aborted
    ensures Seen(Run(q, ids, txs), q.asa) == Dedup(Accounts(q, txs))
    decreases |txs|
  {
    if txs != [] {
      var init, tx := txs[..|txs| - 1], txs[|txs| - 1];
      var s := Run(q, ids, init);
      assert !s.aborted;
      SeenIsDedup(q, ids, init);
      DedupElements(Accounts(q, init));
      StepShape(q, ids, s, tx);
      var c := Classify(q.version, tx, q.asa, q.world.utf8);
      if c.Some? {
        var xs := Accounts(q, init) + [c.value.account];
        assert Accounts(q, txs) == xs;
        assert xs[..|xs| - 1] == Accounts(q, init);
      } else {
        assert Accounts(q, txs) == Accounts(q, init) + [] == Accounts(q, init);
      }
    }
  }

  /** Every reported entry belongs to an account `asaSeen` lists. */
  lemma {:induction false} EntriesSeen(q: Search, ids: LockIds, txs: seq<Transaction>)
    requires !Run(q, ids, txs).aborted
    ensures forall i :: 0 <= i < |Run(q, ids, txs).entries| ==>
              Run(q, ids, txs).entries[i].account in Seen(Run(q, ids, txs), q.asa)
    decreases |txs|
  {
    if txs != [] {
      var init := txs[..|txs| - 1];
      var s := Run(q, ids, init);
      assert !s.aborted;
      EntriesSeen(q, ids, init);
      StepShape(q, ids, s, txs[|txs| - 1]);
    }
  }

  /** Within one transaction list, no account is reported twice. */
  lemma {:induction false} EntriesDistinct(q: Search, ids: LockIds, txs: seq<Transaction>)
    requires !Run(q, ids, txs).aborted
    ensures var es := Run(q, ids, txs).entries;
            forall i, j :: 0 <= i < j < |es| ==> es[i].account != es[j].account
    decreases |txs|
  {
    if txs != [] {
      var init := txs[..|txs| - 1];
      var s := Run(q, ids, init);
      assert !s.aborted;
      EntriesDistinct(q, ids, init);
      EntriesSeen(q, ids, init);
      StepShape(q, ids, s, txs[|txs| - 1]);
    }
  }

  /** Every reported account comes from a recognised transaction. */
  lemma {:induction false} EntriesRecognised(q: Search, ids: LockIds, txs: seq<Transaction>)
    requires !Run(q, ids, txs).aborted
    ensures forall i :: 0 <= i < |Run(q, ids, txs).entries| ==> Run(q, ids, txs).entries[i].account in Accounts(q, txs)
  {
    SeenIsDedup(q, ids, txs);
    EntriesSeen(q, ids, txs);
    DedupElements(Accounts(q, txs));
  }

  /**
   * The recognised candidates of the transactions whose account no earlier
   * transaction named, in order.
   */
  function FirstSeen(q: Search, txs: seq<Transaction>): seq<Candidate>
    decreases |txs|
  {
    if txs == [] then []
    else
      var init := txs[..|txs| - 1];
      var c := Classify(q.version, txs[|txs| - 1], q.asa, q.world.utf8);
      if c.Some? && c.value.account !in Accounts(q, init) then FirstSeen(q, init) + [c.value]
      else FirstSeen(q, init)
  }

  /** What the candidates report, one after another. */
  function ReportAll(q: Search, ids: LockIds, cs: seq<Candidate>): seq<Entry>
    decreases |cs|
  {
    if cs == [] then [] else ReportAll(q, ids, cs[..|cs| - 1]) + Report(q, ids, cs[|cs| - 1])
  }

  /** A failed search stays failed. */
  lemma StepKeepsAbort(q: Search, ids: LockIds, s: Scan, tx: Transaction)
    ensures s.aborted ==> Step(q, ids, s, tx).aborted
  {
  }

  /**
   * Completeness: a search that does not fail reports exactly what the
   * first-seen candidates' lock accounts yield, in transaction order.
   */
  lemma {:induction false} RunReportsFirstSeen(q: Search, ids: LockIds, txs: seq<Transaction>)
    requires !Run(q, ids, txs).aborted
    ensures Run(q, ids, txs).entries == ReportAll(q, ids, FirstSeen(q, txs))
    decreases |txs|
  {
    if txs != [] {
      var init := txs[..|txs| - 1];
      var s := Run(q, ids, init);
      var tx := txs[|txs| - 1];
      StepKeepsAbort(q, ids, s, tx);
      RunReportsFirstSeen(q, ids, init);
      SeenIsDedup(q, ids, init);
      DedupElements(Accounts(q, init));
      var c := Classify(q.version, tx, q.asa, q.world.utf8);
      if c.Some? && c.value.account !in Accounts(q, init) {
        var cs := FirstSeen(q, init) + [c.value];
        assert cs[..|cs| - 1] == FirstSeen(q, init);
        assert Run(q, ids, txs) == Admit(q, ids, s, c.value);
      }
    }
  }

  /** A candidate listed among the first-seen ones reports into `ReportAll`. */
  lemma {:induction false} ReportAllHas(q: Search, ids: LockIds, cs: seq<Candidate>, c: Candidate, e: Entry)
    requires c in cs && Report(q, ids, c) == [e]
    ensures e in ReportAll(q, ids, cs)
    decreases |cs|
  {
    if cs[|cs| - 1] != c {
      var init := cs[..|cs| - 1];
      assert cs == init + [cs[|cs| - 1]];
      ReportAllHas(q, ids, init, c, e);
    }
  }

  /** The candidate of a transaction whose account no earlier transaction named is first-seen. */
  lemma {:induction false} FirstSeenHas(q: Search, txs: seq<Transaction>, i: nat, c: Candidate)
    requires i < |txs| && Classify(q.version, txs[i], q.asa, q.world.utf8) == Some(c)
    requires c.account !in Accounts(q, txs[..i])
    ensures c in FirstSeen(q, txs)
    decreases |txs|
  {
    var init := txs[..|txs| - 1];
    if i < |txs| - 1 {
      assert init[i] == txs[i] && init[..i] == txs[..i];
      FirstSeenHas(q, init, i, c);
    }
  }

  /**
   * A transaction naming a lock of the target for an account no earlier
   * transaction named is reported, when its lock account yields an entry
   * and the search does not fail.
   */
  lemma {:induction false} FirstSeenReported(q: Search, ids: LockIds, txs: seq<Transaction>, i: nat, c: Candidate, e: Entry)
    requires !Run(q, ids, txs).aborted
    requires i < |txs| && Classify(q.version, txs[i], q.asa, q.world.utf8) == Some(c)
    requires c.account !in Accounts(q, txs[..i])
    requires Report(q, ids, c) == [e]
    ensures e in Run(q, ids, txs).entries
  {
    RunReportsFirstSeen(q, ids, txs);
    FirstSeenHas(q, txs, i, c);
    ReportAllHas(q, ids, FirstSeen(q, txs), c, e);
  }

  /** Every entry of `ReportAll` is the report of one of the candidates. */
  lemma {:induction false} ReportAllFrom(q: Search, ids: LockIds, cs: seq<Candidate>, e: Entry)
    requires e in ReportAll(q, ids, cs)
    ensures exists d :: d in cs && Report(q, ids, d) == [e]
    decreases |cs|
  {
    var init, d := cs[..|cs| - 1], cs[|cs| - 1];
    if e in ReportAll(q, ids, init) {
      ReportAllFrom(q, ids, init, e);
      var d' :| d' in init && Report(q, ids, d') == [e];
      assert d' in cs;
    } else {
      assert e in Report(q, ids, d);
      assert d in cs;
    }
  }

  /** The first-seen candidates name accounts of recognised transactions. */
  lemma {:induction false} FirstSeenAccounts(q: Search, txs: seq<Transaction>)
    ensures forall d | d in FirstSeen(q, txs) :: d.account in Accounts(q, txs)
    decreases |txs|
  {
    if txs != [] {
      var init := txs[..|txs| - 1];
      FirstSeenAccounts(q, init);
      var c := Classify(q.version, txs[|txs| - 1], q.asa, q.world.utf8);
      var extra := if c.Some? then [c.value.account] else [];
      assert Accounts(q, txs) == Accounts(q, init) + extra;
    }
  }

  /** No two candidates of the list name the same account. */
  predicate AccountsDistinct(cs: seq<Candidate>)
  {
    forall i, j :: 0 <= i < j < |cs| ==> cs[i].account != cs[j].account
  }

  /** Appending a candidate for a new account keeps the accounts distinct. */
  lemma AccountsDistinctSnoc(cs: seq<Candidate>, c: Candidate)
    requires AccountsDistinct(cs)
    requires forall d | d in cs :: d.account != c.account
    ensures AccountsDistinct(cs + [c])
  {
    var ds := cs + [c];
    forall i, j | 0 <= i < j < |ds|
      ensures ds[i].account != ds[j].account
    {
      assert ds[i] == cs[i];
      if j < |cs| {
        assert ds[j] == cs[j];
      } else {
        assert cs[i] in cs;
      }
    }
  }

  /** The first-seen candidates name each account once. */
  lemma {:induction false} FirstSeenDistinct(q: Search, txs: seq<Transaction>)
    ensures AccountsDistinct(FirstSeen(q, txs))
    decreases |txs|
  {
    if txs != [] {
      var init := txs[..|txs| - 1];
      FirstSeenDistinct(q, init);
      FirstSeenAccounts(q, init);
      var c := Classify(q.version, txs[|txs| - 1], q.asa, q.world.utf8);
      if c.Some? && c.value.account !in Accounts(q, init) {
        AccountsDistinctSnoc(FirstSeen(q, init), c.value);
      }
    }
  }

  /** Two different candidates of a list whose accounts are distinct have different accounts. */
  lemma DistinctAccounts(cs: seq<Candidate>, d: Candidate, c: Candidate)
    requires AccountsDistinct(cs)
    requires d in cs && c in cs && d != c
    ensures d.account != c.account
  {
    var a :| 0 <= a < |cs| && cs[a] == d;
    var b :| 0 <= b < |cs| && cs[b] == c;
    if a < b {
      assert cs[a].account != cs[b].account;
    } else {
      assert cs[b].account != cs[a].account;
    }
  }

  /**
   * A transaction naming, for the first time, an account whose lock account
   * is not found or yields nothing leaves that account out of the results.
   */
  lemma {:induction false} FirstSeenDropped(q: Search, ids: LockIds, txs: seq<Transaction>, i: nat, c: Candidate)
    requires !Run(q, ids, txs).aborted
    requires i < |txs| && Classify(q.version, txs[i], q.asa, q.world.utf8) == Some(c)
    requires c.account !in Accounts(q, txs[..i])
    requires Report(q, ids, c) == []
    ensures forall e | e in Run(q, ids, txs).entries :: e.account != c.account
  {
    RunReportsFirstSeen(q, ids, txs);
    FirstSeenHas(q, txs, i, c);
    FirstSeenDistinct(q, txs);
    var cs := FirstSeen(q, txs);
    forall e | e in Run(q, ids, txs).entries
      ensures e.account != c.account
    {
      ReportAllFrom(q, ids, cs, e);
      var d :| d in cs && Report(q, ids, d) == [e];
      assert d != c;
      DistinctAccounts(cs, d, c);
    }
  }

  /**
   * With a truthy target and lock ids and senders that are non-empty, no
   * lock signature is asked for with unset parameters, so the search never
   * fails.
   */
  lemma {:induction false} NeverAborts(q: Search, ids: LockIds, txs: seq<Transaction>)
    requires q.asa != 0 && ids.lockApp != 0 && ids.lockAsa != 0
    requires forall i :: 0 <= i < |txs| ==> txs[i].sender != ""
    ensures !Run(q, ids, txs).aborted
    decreases |txs|
  {
    if txs != [] {
      NeverAborts(q, ids, txs[..|txs| - 1]);
      var c := Classify(q.version, txs[|txs| - 1], q.asa, q.world.utf8);
      if c.Some? {
        assert c.value.account != "";
      }
    }
  }

  /**
   * Transaction `i` names, for the first time in the list, a lock whose
   * parameters are unset, so asking for its signature throws.
   */
  predicate UnsetAt(q: Search, ids: LockIds, txs: seq<Transaction>, i: int)
  {
    && 0 <= i < |txs|
    && var c := Classify(q.version, txs[i], q.asa, q.world.utf8);
       && c.Some?
       && c.value.account !in Accounts(q, txs[..i])
       && !TinylockSignature.ParametersSet(c.value.signatureAsa, ids.lockApp, ids.lockAsa, c.value.account)
  }

  /** A first-seen lock with unset parameters fails the search. */
  lemma {:induction false} AbortsOnUnset(q: Search, ids: LockIds, txs: seq<Transaction>, i: int)
    requires UnsetAt(q, ids, txs, i)
    ensures Run(q, ids, txs).aborted
  {
    var pre := txs[..i + 1];
    assert pre[..i] == txs[..i] && pre[i] == txs[i];
    var s := Run(q, ids, txs[..i]);
    if !s.aborted {
      SeenIsDedup(q, ids, txs[..i]);
      DedupElements(Accounts(q, txs[..i]));
      StepShape(q, ids, s, txs[i]);
      assert Run(q, ids, pre) == Step(q, ids, s, txs[i]);
    } else {
      StepKeepsAbort(q, ids, s, txs[i]);
    }
    AbortPersists(q, ids, txs, i + 1);
  }

  /** A failed search has such a transaction. */
  lemma {:induction false} AbortHasCause(q: Search, ids: LockIds, txs: seq<Transaction>)
    requires Run(q, ids, txs).aborted
    ensures exists i :: UnsetAt(q, ids, txs, i)
    decreases |txs|
  {
    var init := txs[..|txs| - 1];
    if Run(q, ids, init).aborted {
      AbortHasCause(q, ids, init);
      var i :| UnsetAt(q, ids, init, i);
      UnsetAtPrefix(q, ids, txs, i);
    } else {
      UnsetAtLast(q, ids, txs);
    }
  }

  /** Such a transaction of all but the last transaction is one of the whole list. */
  lemma UnsetAtPrefix(q: Search, ids: LockIds, txs: seq<Transaction>, i: int)
    requires txs != [] && UnsetAt(q, ids, txs[..|txs| - 1], i)
    ensures UnsetAt(q, ids, txs, i)
  {
    var init := txs[..|txs| - 1];
    assert init[i] == txs[i] && init[..i] == txs[..i];
  }

  /** When only the last transaction fails the search, it is such a transaction. */
  lemma UnsetAtLast(q: Search, ids: LockIds, txs: seq<Transaction>)
    requires txs != [] && !Run(q, ids, txs[..|txs| - 1]).aborted && Run(q, ids, txs).aborted
    ensures UnsetAt(q, ids, txs, |txs| - 1)
  {
    var n := |txs| - 1;
    var init := txs[..n];
    var s := Run(q, ids, init);
    SeenIsDedup(q, ids, init);
    DedupElements(Accounts(q, init));
    StepShape(q, ids, s, txs[n]);
    assert Run(q, ids, txs) == Step(q, ids, s, txs[n]);
  }

  /** The search fails exactly when some transaction is such a first-seen lock with unset parameters. */
  lemma AbortsExactly(q: Search, ids: LockIds, txs: seq<Transaction>)
    ensures Run(q, ids, txs).aborted <==> exists i :: UnsetAt(q, ids, txs, i)
  {
    if Run(q, ids, txs).aborted {
      AbortHasCause(q, ids, txs);
    } else if i :| UnsetAt(q, ids, txs, i) {
      AbortsOnUnset(q, ids, txs, i);
    }
  }

  /** The newer `searchToken`: every transaction list from a fresh `asaSeen`, results concatenated; one failure fails all. */
  function SearchAll(q: Search, lists: seq<TransactionList>): Option<seq<Entry>>
    decreases |lists|
  {
    if lists == [] then Some([])
    else
      var w := lists[|lists| - 1];
      match SearchAll(q, lists[..|lists| - 1])
      case None => None
      case Some(earlier) =>
        match Found(Run(q, w.ids, w.transactions))
        case None => None
        case Some(es) => Some(earlier + es)
  }

  method SearchToken(q: Search, lists: seq<TransactionList>) returns (r: Option<seq<Entry>>)
    ensures r == SearchAll(q, lists)
  {
    var all: seq<Entry> := [];
    var k := 0;
    while k < |lists|
      invariant 0 <= k <= |lists|
      invariant SearchAll(q, lists[..k]) == Some(all)
    {
      assert lists[..k + 1][..k] == lists[..k];
      var w := lists[k];
      var found := MatchTransactions(q, w.ids, w.transactions);
      if found.None? {
        SearchFailurePersists(q, lists, k + 1);
        return None;
      }
      all := all + found.value;
      k := k + 1;
    }
    assert lists[..k] == lists;
    return Some(all);
  }

  /** Transaction list `k` fails on its own. */
  predicate ListFails(q: Search, lists: seq<TransactionList>, k: int)
  {
    0 <= k < |lists| && Run(q, lists[k].ids, lists[k].transactions).aborted
  }

  /** The search over some lists fails when the earlier lists fail or the last one does. */
  lemma SearchAllLast(q: Search, lists: seq<TransactionList>)
    requires lists != []
    ensures var n := |lists| - 1;
            SearchAll(q, lists).None?
            <==> SearchAll(q, lists[..n]).None? || Run(q, lists[n].ids, lists[n].transactions).aborted
  {
  }

  /** Dropping the last list does not change whether an earlier list fails. */
  lemma ListFailsPrefix(q: Search, lists: seq<TransactionList>, k: int)
    requires 0 <= k < |lists| - 1
    ensures ListFails(q, lists, k) <==> ListFails(q, lists[..|lists| - 1], k)
  {
    assert lists[k] == lists[..|lists| - 1][k];
  }

  /** A failing transaction list fails the whole search. */
  lemma ListFailsSearch(q: Search, lists: seq<TransactionList>, k: int)
    requires ListFails(q, lists, k)
    ensures SearchAll(q, lists).None?
  {
    var pre := lists[..k + 1];
    assert pre[..k] == lists[..k] && pre[k] == lists[k];
    SearchAllLast(q, pre);
    SearchFailurePersists(q, lists, k + 1);
  }

  /** A failed search has a failing transaction list. */
  lemma {:induction false} FailingList(q: Search, lists: seq<TransactionList>)
    requires SearchAll(q, lists).None?
    ensures exists k :: ListFails(q, lists, k)
    decreases |lists|
  {
    var n := |lists| - 1;
    var init := lists[..n];
    SearchAllLast(q, lists);
    if SearchAll(q, init).None? {
      FailingList(q, init);
      var k :| ListFails(q, init, k);
      ListFailsPrefix(q, lists, k);
      assert ListFails(q, lists, k);
    } else {
      assert ListFails(q, lists, n);
    }
  }

  /** The search fails exactly when one of its transaction lists fails. */
  lemma SearchFailsExactly(q: Search, lists: seq<TransactionList>)
    ensures SearchAll(q, lists).None? <==> exists k :: ListFails(q, lists, k)
  {
    if SearchAll(q, lists).None? {
      FailingList(q, lists);
    } else if k :| ListFails(q, lists, k) {
      ListFailsSearch(q, lists, k);
    }
  }

  /**
   * The search fails exactly when some transaction of some list names, for
   * the first time in that list, a lock with unset parameters.
   */
  lemma SearchFailsOnUnset(q: Search, lists: seq<TransactionList>)
    ensures SearchAll(q, lists).None?
            <==> exists k, i :: 0 <= k < |lists| && UnsetAt(q, lists[k].ids, lists[k].transactions, i)
  {
    SearchFailsExactly(q, lists);
    if SearchAll(q, lists).None? {
      var k :| ListFails(q, lists, k);
      AbortHasCause(q, lists[k].ids, lists[k].transactions);
    } else if k, i :| 0 <= k < |lists| && UnsetAt(q, lists[k].ids, lists[k].transactions, i) {
      AbortsOnUnset(q, lists[k].ids, lists[k].transactions, i);
      assert ListFails(q, lists, k);
    }
  }

  lemma {:induction false} SearchFailurePersists(q: Search, lists: seq<TransactionList>, k: nat)
    requires k <= |lists| && SearchAll(q, lists[..k]).None?
    ensures SearchAll(q, lists).None?
    decreases |lists| - k
  {
    if k == |lists| {
      assert lists[..k] == lists;
    } else {
      var init := lists[..|lists| - 1];
      assert init[..k] == lists[..k];
      SearchFailurePersists(q, init, k);
    }
  }
}

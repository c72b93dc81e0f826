/** modules/abstract-cosmos/src/cosmosCoin.ts: what a recovery sweep moves off an account. */
module Sweep {
  import opened Wrappers

  datatype Coin = Coin(denom: string, amount: string)

  datatype SendMessage = SendMessage(fromAddress: string, toAddress: string, amount: seq<Coin>)

  datatype SweepError = NoBalance | InvalidDenomination | InvalidGasAmount | InvalidBalanceAmount | NotEnoughFunds

  datatype Balances = Balances(nativeBalance: nat, remaining: seq<Coin>, actual: nat)

  // ----- Amounts in base units, as decimal text

  predicate IsDigits(s: string) {
    forall k :: 0 <= k < |s| ==> '0' <= s[k] <= '9'
  }

  /** `new BigNumber(amount)` */
  function Number(s: string): nat
    requires IsDigits(s)
  {
    if s == "" then 0 else 10 * Number(s[..|s| - 1]) + (s[|s| - 1] as int - '0' as int)
  }

  /** `toFixed()` */
  function ToFixed(n: nat): (s: string)
    ensures s != "" && IsDigits(s)
  {
    var last := [('0' as int + n % 10) as char];
    if n < 10 then last else ToFixed(n / 10) + last
  }

  lemma {:induction false} FixedNumber(n: nat)
    ensures Number(ToFixed(n)) == n
  {
    var last := ('0' as int + n % 10) as char;
    if n < 10 {
      assert ToFixed(n) == [last] && [last][..0] == "";
    } else {
      FixedNumber(n / 10);
      assert ToFixed(n)[..|ToFixed(n)| - 1] == ToFixed(n / 10);
    }
  }

  /** One more digit. */
  lemma TenTimes(s: string, c: char)
    requires IsDigits(s) && '0' <= c <= '9'
    ensures Number(s + [c]) == 10 * Number(s) + (c as int - '0' as int) && Number("") == 0
  {
    assert (s + [c])[..|s|] == s;
  }

  predicate AmountsOk(balances: seq<Coin>) {
    forall k :: 0 <= k < |balances| ==> IsDigits(balances[k].amount)
  }

  /** What a coin adds to the total of a denomination. */
  function Share(coin: Coin, denom: string): nat
    requires IsDigits(coin.amount)
  {
    if coin.denom == denom then Number(coin.amount) else 0
  }

  /** All the account holds of a denomination. */
  function Total(coins: seq<Coin>, denom: string): nat
    requires AmountsOk(coins)
  {
    if coins == [] then 0
    else Total(coins[..|coins| - 1], denom) + Share(coins[|coins| - 1], denom)
  }

  /** The amount of the last balance of a denomination. */
  function LastAmount(coins: seq<Coin>, denom: string): nat
    requires AmountsOk(coins)
  {
    if coins == [] then 0
    else if coins[|coins| - 1].denom == denom then Number(coins[|coins| - 1].amount)
    else LastAmount(coins[..|coins| - 1], denom)
  }

  function Others(coins: seq<Coin>, denom: string): (r: seq<Coin>)
    ensures forall k :: 0 <= k < |r| ==> r[k] in coins && r[k].denom != denom
  {
    if coins == [] then []
    else
      var last := if coins[|coins| - 1].denom == denom then [] else [coins[|coins| - 1]];
      Others(coins[..|coins| - 1], denom) + last
  }

  /** r holds the balances in other denominations, each once, in the order of the account: they stand at
      the places ix, which go up and are all places of another denomination. */
  ghost predicate InOrder(coins: seq<Coin>, denom: string, r: seq<Coin>, ix: seq<nat>) {
    && |ix| == |r|
    && (forall k :: 0 <= k < |ix| ==> ix[k] < |coins| && r[k] == coins[ix[k]])
    && (forall k, l :: 0 <= k < l < |ix| ==> ix[k] < ix[l])
    && (forall i :: 0 <= i < |coins| ==> (i in ix <==> coins[i].denom != denom))
  }

  /** One more balance. */
  lemma InOrderNext(coins: seq<Coin>, denom: string, r: seq<Coin>, ix: seq<nat>, coin: Coin)
    requires InOrder(coins, denom, r, ix)
    ensures coin.denom == denom ==> InOrder(coins + [coin], denom, r, ix)
    ensures coin.denom != denom ==> InOrder(coins + [coin], denom, r + [coin], ix + [|coins|])
  {
    var all := coins + [coin];
    forall i | 0 <= i < |all|
      ensures coin.denom == denom ==> (i in ix <==> all[i].denom != denom)
      ensures coin.denom != denom ==> (i in ix + [|coins|] <==> all[i].denom != denom)
    {
      if i < |coins| {
        assert all[i] == coins[i];
      }
    }
  }

  /** The native balance is the amount of the last balance in the native denomination. */
  lemma {:induction false} LastAmountIs(coins: seq<Coin>, denom: string, i: nat)
    requires AmountsOk(coins) && i < |coins| && coins[i].denom == denom
    requires forall j :: i < j < |coins| ==> coins[j].denom != denom
    ensures LastAmount(coins, denom) == Number(coins[i].amount)
  {
    hide Number;
    if i < |coins| - 1 {
      LastAmountIs(coins[..|coins| - 1], denom, i);
    }
  }

  /** The first check that fails, if one does. */
  ghost function Failure(balances: seq<Coin>, denomination: string, gasAmount: string): SweepError {
    if balances == [] then NoBalance
    else if denomination == "" then InvalidDenomination
    else if gasAmount == "" then InvalidGasAmount
    else if exists k :: 0 <= k < |balances| && balances[k].amount == "" then InvalidBalanceAmount
    else NotEnoughFunds
  }

  /** The loop of `processBalances`; None when an amount is missing. */
  method SplitBalances(balances: seq<Coin>, denomination: string) returns (r: Option<(nat, seq<Coin>)>)
    requires AmountsOk(balances)
    ensures r.Some? <==> forall k :: 0 <= k < |balances| ==> balances[k].amount != ""
    ensures r.Some? ==> r.value == (LastAmount(balances, denomination), Others(balances, denomination))
    ensures r.Some? ==> exists ix :: InOrder(balances, denomination, r.value.1, ix)
  {
    hide InOrder, Number, LastAmount, Others, IsDigits;
    var nativeBalance: nat := 0;
    var remaining: seq<Coin> := [];
    ghost var ix: seq<nat> := [];
    NothingSplit(denomination);
    for i := 0 to |balances|
      invariant forall k :: 0 <= k < i ==> balances[k].amount != ""
      invariant nativeBalance == LastAmount(balances[..i], denomination)
      invariant remaining == Others(balances[..i], denomination)
      invariant InOrder(balances[..i], denomination, remaining, ix)
    {
      var balance := balances[i];
      if balance.amount == "" {
        return None;
      }
      SplitNext(balances[..i], denomination, balance);
      InOrderNext(balances[..i], denomination, remaining, ix, balance);
      assert balances[..i] + [balance] == balances[..i + 1];
      if balance.denom == denomination {
        nativeBalance := Number(balance.amount);
      } else {
        remaining := remaining + [balance];
        ix := ix + [i];
      }
    }
    assert balances[..|balances|] == balances;
    return Some((nativeBalance, remaining));
  }

  lemma NothingSplit(denom: string)
    ensures InOrder([], denom, [], []) && LastAmount([], denom) == 0 && Others([], denom) == []
  {
  }

  lemma SplitNext(coins: seq<Coin>, denom: string, coin: Coin)
    requires AmountsOk(coins) && IsDigits(coin.amount)
    ensures AmountsOk(coins + [coin])
    ensures LastAmount(coins + [coin], denom) == if coin.denom == denom then Number(coin.amount) else LastAmount(coins, denom)
    ensures Others(coins + [coin], denom) == if coin.denom == denom then Others(coins, denom) else Others(coins, denom) + [coin]
  {
    hide Number;
    assert (coins + [coin])[..|coins|] == coins;
    assert Others(coins, denom) + [] == Others(coins, denom);
  }

  /** `processBalances(balances)`; an empty text stands for a missing denomination or amount. */
  method ProcessBalances(balances: seq<Coin>, denomination: string, gasAmount: string)
    returns (r: Result<Balances, SweepError>)
    requires AmountsOk(balances) && IsDigits(gasAmount)
    ensures r.Ok? <==>
      && balances != [] && denomination != "" && gasAmount != ""
      && (forall k :: 0 <= k < |balances| ==> balances[k].amount != "")
      && LastAmount(balances, denomination) > Number(gasAmount)
    ensures r.Err? ==> r.error == Failure(balances, denomination, gasAmount)
    ensures r.Ok? ==> exists ix :: InOrder(balances, denomination, r.value.remaining, ix)
    ensures r.Ok? ==>
      var native := LastAmount(balances, denomination);
      r.value == Balances(native, Others(balances, denomination), native - Number(gasAmount))
  {
    hide InOrder, Number, LastAmount, Others;
    if balances == [] {
      return Err(NoBalance);
    }
    if denomination == "" {
      return Err(InvalidDenomination);
    }
    if gasAmount == "" {
      return Err(InvalidGasAmount);
    }
    var split := SplitBalances(balances, denomination);
    if split.None? {
      return Err(InvalidBalanceAmount);
    }
    var (nativeBalance, remaining) := split.value;
    if nativeBalance <= Number(gasAmount) {
      return Err(NotEnoughFunds);
    }
    return Ok(Balances(nativeBalance, remaining, nativeBalance - Number(gasAmount)));
  }

  /** `buildTransactionMessages`: one message for each other balance, the native one last. */
  function BuildMessages(from: string, to: string, denomination: string, actual: nat, remaining: seq<Coin>): seq<SendMessage> {
    seq(|remaining|, k requires 0 <= k < |remaining| => SendMessage(from, to, [remaining[k]]))
    + [SendMessage(from, to, [Coin(denomination, ToFixed(actual))])]
  }

  /** All coins in the messages, in order. */
  function Sent(messages: seq<SendMessage>): seq<Coin> {
    if messages == [] then [] else Sent(messages[..|messages| - 1]) + messages[|messages| - 1].amount
  }

  lemma {:induction false} SentOthers(from: string, to: string, remaining: seq<Coin>)
    ensures Sent(seq(|remaining|, k requires 0 <= k < |remaining| => SendMessage(from, to, [remaining[k]]))) == remaining
  {
    var messages := seq(|remaining|, k requires 0 <= k < |remaining| => SendMessage(from, to, [remaining[k]]));
    if remaining != [] {
      var before := remaining[..|remaining| - 1];
      SentOthers(from, to, before);
      assert messages[..|messages| - 1] == seq(|before|, k requires 0 <= k < |before| => SendMessage(from, to, [before[k]]));
    }
  }

  /** The messages, each from the account to the destination, send the other balances one by one as
      they are, then the native balance less the gas. */
  lemma SentIs(from: string, to: string, denomination: string, actual: nat, remaining: seq<Coin>)
    ensures
      var messages := BuildMessages(from, to, denomination, actual, remaining);
      var coins := remaining + [Coin(denomination, ToFixed(actual))];
      && Sent(messages) == coins
      && |messages| == |coins|
      && forall k :: 0 <= k < |coins| ==> messages[k] == SendMessage(from, to, [coins[k]])
  {
    var messages := BuildMessages(from, to, denomination, actual, remaining);
    SentOthers(from, to, remaining);
    assert messages[..|messages| - 1] == seq(|remaining|, k requires 0 <= k < |remaining| => SendMessage(from, to, [remaining[k]]));
  }

  lemma TotalAppend(coins: seq<Coin>, coin: Coin, denom: string)
    requires AmountsOk(coins) && IsDigits(coin.amount)
    ensures AmountsOk(coins + [coin])
    ensures Total(coins + [coin], denom) == Total(coins, denom) + Share(coin, denom)
  {
    assert (coins + [coin])[..|coins|] == coins;
  }

  lemma {:induction false} OthersTotal(coins: seq<Coin>, native: string, denom: string)
    requires AmountsOk(coins)
    ensures AmountsOk(Others(coins, native))
    ensures Total(Others(coins, native), denom) == if denom == native then 0 else Total(coins, denom)
  {
    hide Number;
    if coins != [] {
      var before, last := coins[..|coins| - 1], coins[|coins| - 1];
      OthersTotal(before, native, denom);
      if last.denom == native {
        assert Others(coins, native) == Others(before, native);
      } else {
        assert Others(coins, native) == Others(before, native) + [last];
        TotalAppend(Others(before, native), last, denom);
      }
    }
  }

  /** Every native balance before the last one is zero. */
  predicate EarlierNativeZero(coins: seq<Coin>, native: string)
    requires AmountsOk(coins)
  {
    if coins == [] then true
    else if coins[|coins| - 1].denom == native then Total(coins[..|coins| - 1], native) == 0
    else EarlierNativeZero(coins[..|coins| - 1], native)
  }

  lemma {:induction false} LastIsTotal(coins: seq<Coin>, native: string)
    requires AmountsOk(coins)
    ensures EarlierNativeZero(coins, native) <==> LastAmount(coins, native) == Total(coins, native)
  {
    if coins != [] && coins[|coins| - 1].denom != native {
      LastIsTotal(coins[..|coins| - 1], native);
    }
  }

  /** With one native balance, nothing is lost: for each denomination the messages and, for the native
      one, the gas add up to what the account holds.  Exactly then: with several native balances only
      the last one is swept. */
  lemma Conservation(from: string, to: string, balances: seq<Coin>, native: string, gasAmount: string)
    requires AmountsOk(balances) && IsDigits(gasAmount) && LastAmount(balances, native) > Number(gasAmount)
    ensures
      var gas := Number(gasAmount);
      var sent := Sent(BuildMessages(from, to, native, LastAmount(balances, native) - gas, Others(balances, native)));
      && AmountsOk(sent)
      && (forall denom | denom != native :: Total(sent, denom) == Total(balances, denom))
      && (Total(sent, native) + gas == Total(balances, native) <==> EarlierNativeZero(balances, native))
  {
    hide Number, Total, Others, LastAmount, Sent, BuildMessages;
    var actual := LastAmount(balances, native) - Number(gasAmount);
    var others, last := Others(balances, native), Coin(native, ToFixed(actual));
    SentIs(from, to, native, actual, others);
    FixedNumber(actual);
    LastIsTotal(balances, native);
    OthersTotal(balances, native, native);
    TotalAppend(others, last, native);
    forall denom | denom != native
      ensures Total(others + [last], denom) == Total(balances, denom)
    {
      OthersTotal(balances, native, denom);
      TotalAppend(others, last, denom);
    }
  }

  /** Two native balances: the first one stays on the account. */
  lemma TwoNativeBalances(native: string)
    ensures
      var balances := [Coin(native, "5"), Coin(native, "7")];
      && AmountsOk(balances)
      && LastAmount(balances, native) > Number("1")
      && !EarlierNativeZero(balances, native)
  {
    var balances := [Coin(native, "5"), Coin(native, "7")];
    var first := balances[..1];
    assert first == [Coin(native, "5")] && first[..0] == [];
    assert "5"[..0] == "" && "7"[..0] == "" && "1"[..0] == "";
    assert Number("5") == 5 && Number("7") == 7 && Number("1") == 1;
    assert Total(first, native) == Total(first[..0], native) + Share(first[0], native) == 5;
  }
}

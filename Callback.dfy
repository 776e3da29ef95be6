/**
 * The asset-choice callback: its data reads `asset:<X>`, and the chosen asset
 * is the text after the first colon, accepted only when it is one of the
 * assets the bot offers.
 */
module Callback {
  import opened Wrappers

  /** The assets offered for a crypto donation (main.py:39). */
  const Assets: seq<string> := ["USDT", "ETH", "BTC", "TON"]

  /** The prefix the dispatcher filters on and the asset keyboard writes (main.py:52, main.py:81). */
  const AssetPrefix: string := "asset:"

  /** `data.split(":", 1)[1]`; `None` stands for the IndexError raised when there is no colon. */
  function AfterFirstColon(data: string): (r: Option<string>)
    ensures r.None? <==> ':' !in data
    ensures r.Some? ==>
      var i := |data| - |r.value| - 1;
      0 <= i && data[i] == ':' && ':' !in data[..i] && r.value == data[i + 1..]
  {
    var i := IndexOf(data, ':');
    if i < |data| then
      assert forall k :: 0 <= k < i ==> data[..i][k] != ':';
      Some(data[i + 1..])
    else None
  }

  /** The asset a callback selects, if it is one the bot offers (main.py:89-90). */
  function ChosenAsset(data: string): (r: Option<string>)
    ensures r.Some? ==> r.value in Assets
  {
    match AfterFirstColon(data)
    case Some(a) => if a in Assets then Some(a) else None
    case None => None
  }

  /** Under the dispatcher's filter the asset is everything after the prefix. */
  lemma {:induction false} AfterPrefix(data: string)
    requires AssetPrefix <= data
    ensures AfterFirstColon(data) == Some(data[|AssetPrefix|..])
  {
    assert data[5] == ':';
    assert forall k :: 0 <= k < 5 ==> data[k] == AssetPrefix[k] != ':';
    assert IndexOf(data, ':') == 5;
  }

  /** A prefixed callback selects an asset exactly when the rest of it names an offered asset. */
  lemma {:induction false} ChosenAssetIff(data: string)
    requires AssetPrefix <= data
    ensures ChosenAsset(data).Some? <==> data[|AssetPrefix|..] in Assets
    ensures ChosenAsset(data).Some? ==> ChosenAsset(data).value == data[|AssetPrefix|..]
  {
    AfterPrefix(data);
  }

  /** Every button of the asset keyboard selects its own asset, and the data passes the filter. */
  lemma {:induction false} KeyboardButtonSelectsItsAsset(a: string)
    requires a in Assets
    ensures AssetPrefix <= AssetPrefix + a
    ensures ChosenAsset(AssetPrefix + a) == Some(a)
  {
    var data := AssetPrefix + a;
    AfterPrefix(data);
    assert data[|AssetPrefix|..] == a;
  }
}

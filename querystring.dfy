/**
 * The hand-written `parseQuery` both controllers share: the text is split
 * on `&`, each piece on `=`, and only pieces of exactly two parts are kept,
 * later ones overwriting earlier ones. Nothing is URL-decoded.
 */
module QueryString {
  import opened Wrappers
  import opened JavaText

  /** The key and value of one `&`-piece, when it splits into exactly two parts. */
  function PairOf(piece: string): Option<(string, string)> {
    var kv := Split(piece, "=");
    if |kv| == 2 then Some((kv[0], kv[1])) else None
  }

  /** The map built from the pieces taken left to right. */
  function PutPairs(pieces: seq<string>): map<string, string> {
    if pieces == [] then map[]
    else
      var m := PutPairs(pieces[..|pieces| - 1]);
      match PairOf(pieces[|pieces| - 1])
      case Some(kv) => m[kv.0 := kv.1]
      case None => m
  }

  /** What `parseQuery` returns; an absent query gives the empty map. */
  function QueryParams(query: Option<string>): map<string, string> {
    if query.None? then map[] else PutPairs(Split(query.value, "&"))
  }

  /** `parseQuery`: fills the map in one pass over the `&`-pieces. */
  method ParseQuery(query: Option<string>) returns (params: map<string, string>)
    ensures params == QueryParams(query)
  {
    params := map[];
    if query.None? {
      return;
    }
    var pieces := Split(query.value, "&");
    var i := 0;
    while i < |pieces|
      invariant 0 <= i <= |pieces|
      invariant params == PutPairs(pieces[..i])
    {
      assert pieces[..i + 1][..i] == pieces[..i];
      var keyValue := Split(pieces[i], "=");
      if |keyValue| == 2 {
        params := params[keyValue[0] := keyValue[1]];
      }
      i := i + 1;
    }
    assert pieces[..|pieces|] == pieces;
  }

  /** The piece is a pair whose key is `key`. */
  predicate HasPair(piece: string, key: string) {
    PairOf(piece).Some? && PairOf(piece).value.0 == key
  }

  /** The last piece adds its key, if it is a pair, to the keys of the others. */
  lemma PutPairsStep(pieces: seq<string>, key: string)
    requires pieces != []
    ensures key in PutPairs(pieces) <==>
      key in PutPairs(pieces[..|pieces| - 1]) || HasPair(pieces[|pieces| - 1], key)
  {
  }

  /** A key is present exactly when some piece is a pair with that key. */
  lemma {:induction false} PutPairsKeys(pieces: seq<string>, key: string)
    ensures key in PutPairs(pieces) <==> exists i :: 0 <= i < |pieces| && HasPair(pieces[i], key)
  {
    if pieces != [] {
      var n := |pieces| - 1;
      var init := pieces[..n];
      PutPairsKeys(init, key);
      PutPairsStep(pieces, key);
      if exists i :: 0 <= i < |pieces| && HasPair(pieces[i], key) {
        var i :| 0 <= i < |pieces| && HasPair(pieces[i], key);
        if i < n {
          assert HasPair(init[i], key);
        }
      } else {
        forall i | 0 <= i < n
          ensures !HasPair(init[i], key)
        {
          assert init[i] == pieces[i];
        }
      }
    }
  }

  /** Its value comes from the last piece with that key. */
  lemma {:induction false} PutPairsLast(pieces: seq<string>, key: string, i: nat)
    requires i < |pieces| && HasPair(pieces[i], key)
    requires forall j :: i < j < |pieces| ==> !HasPair(pieces[j], key)
    ensures key in PutPairs(pieces) && PutPairs(pieces)[key] == PairOf(pieces[i]).value.1
  {
    var n := |pieces| - 1;
    if i < n {
      var init := pieces[..n];
      assert forall j :: 0 <= j < n ==> pieces[j] == init[j];
      PutPairsLast(init, key, i);
      assert !HasPair(pieces[n], key);
    }
  }

  // ---------------------------------------------------------------- form bodies

  /** A key or value a form body can carry unchanged: not empty, free of `&` and `=`. */
  predicate PlainToken(s: string) {
    s != "" && '&' !in s && '=' !in s
  }

  predicate PlainEntries(entries: seq<(string, string)>) {
    forall k :: 0 <= k < |entries| ==> PlainToken(entries[k].0) && PlainToken(entries[k].1)
  }

  function PairText(e: (string, string)): string {
    e.0 + "=" + e.1
  }

  function PairTexts(entries: seq<(string, string)>): (r: seq<string>)
    ensures |r| == |entries|
    ensures forall k :: 0 <= k < |r| ==> r[k] == PairText(entries[k])
  {
    if entries == [] then [] else [PairText(entries[0])] + PairTexts(entries[1..])
  }

  /** `k1=v1&k2=v2&...`, as the client formats its queries and bodies. */
  function FormBody(entries: seq<(string, string)>): string {
    Join(PairTexts(entries), "&")
  }

  /** The entries put into a map in order, later keys overwriting earlier ones. */
  function EntriesMap(entries: seq<(string, string)>): map<string, string> {
    if entries == [] then map[]
    else EntriesMap(entries[..|entries| - 1])[entries[|entries| - 1].0 := entries[|entries| - 1].1]
  }

  lemma PairTextSplits(e: (string, string))
    requires PlainToken(e.0) && PlainToken(e.1)
    ensures PairOf(PairText(e)) == Some(e)
    ensures '&' !in PairText(e)
  {
    NotContainsWithout(e.1, "=", '=');
    SplitTwo(e.0, "=", 0, e.1);
  }

  lemma {:induction false} PutPairTexts(entries: seq<(string, string)>)
    requires PlainEntries(entries)
    ensures PutPairs(PairTexts(entries)) == EntriesMap(entries)
  {
    if entries != [] {
      var n := |entries| - 1;
      var init := entries[..n];
      PutPairTexts(init);
      assert PairTexts(entries)[..n] == PairTexts(init);
      PairTextSplits(entries[n]);
    }
  }

  /**
   * A body of plain keys and values reads back as the map of its entries:
   * values arrive exactly as written, still encoded if they were encoded,
   * and a repeated key keeps its last value.
   */
  lemma ParseFormBody(entries: seq<(string, string)>)
    requires entries != [] && PlainEntries(entries)
    ensures QueryParams(Some(FormBody(entries))) == EntriesMap(entries)
  {
    var texts := PairTexts(entries);
    forall k | 0 <= k < |texts|
      ensures '&' !in texts[k]
    {
      PairTextSplits(entries[k]);
    }
    SplitJoin(texts, "&");
    PutPairTexts(entries);
  }
}

/** How a submitted value becomes the value stored in a vault cell, shared by the form
    route of src/routes/table_cud.rs and the CSV import of src/routes/xport.rs: a value
    for an encrypted column is replaced by its hex ciphertext and dropped when
    encryption fails, any other value is kept as it is; the `(column, value)` pairs
    kept are collected into the map handed to `insert_vault_data`. */
module Cells {
  import opened Wrappers
  import opened Utf8
  import opened Crypt
  import opened Data

  /** One draw of the operating system's random generator for one encryption. */
  type Randomness = nat -> NonZeroByte

  /** The value stored for `value` in a cell of `column`. */
  function EncodeCell(column: ColumnIndexEntry, value: string, kp: KeyPair, rng: Randomness): (r: Option<string>)
    ensures !column.encrypted ==> r == Some(value)
  {
    if column.encrypted then
      match EncryptStringToHex(kp, value, rng)
      case Err(_) => None
      case Ok(hex) => Some(hex)
    else Some(value)
  }

  /** The value stored for a field reads back as the value submitted: through the codec
      for an encrypted column, verbatim otherwise. */
  predicate ReadsBack(column: ColumnIndexEntry, stored: string, submitted: string, kp: KeyPair) {
    if column.encrypted then DecryptStringFromHex(kp, stored) == Ok(submitted) else stored == submitted
  }

  /** Under a matching key pair a stored value reads back as the value submitted, and a
      value is dropped exactly when it belongs to an encrypted column and its UTF-8 bytes
      do not fit in one RSA block with the padding. */
  lemma EncodeCellRecoverable(column: ColumnIndexEntry, value: string, kp: KeyPair, rng: Randomness)
    requires Matching(kp)
    ensures EncodeCell(column, value, kp, rng).None? <==> column.encrypted && |Utf8.Encode(value)| + 11 > kp.k
    ensures EncodeCell(column, value, kp, rng).Some? && column.encrypted ==>
      DecryptStringFromHex(kp, EncodeCell(column, value, kp, rng).value) == Ok(value)
  {
    CodecRoundTrip(kp, value, rng);
  }

  /** `filter_map`'s kept values, in order: a value is kept exactly when some element
      holds it. */
  function Somes<T(!new)>(xs: seq<Option<T>>): (r: seq<T>)
    ensures |r| <= |xs|
    ensures forall x :: x in r <==> Some(x) in xs
    decreases |xs|
  {
    if |xs| == 0 then []
    else
      var init := xs[..|xs| - 1];
      assert xs == init + [xs[|xs| - 1]];
      Somes(init) + (if xs[|xs| - 1].Some? then [xs[|xs| - 1].value] else [])
  }

  /** Keeping distributes over concatenation, so the kept values keep their order. */
  lemma {:induction false} SomesAppend<T(!new)>(xs: seq<Option<T>>, ys: seq<Option<T>>)
    ensures Somes(xs + ys) == Somes(xs) + Somes(ys)
    decreases |ys|
  {
    if |ys| > 0 {
      var init := ys[..|ys| - 1];
      var last := ys[|ys| - 1];
      var tail := if last.Some? then [last.value] else [];
      SomesAppend(xs, init);
      assert (xs + ys)[..|xs + ys| - 1] == xs + init;
      assert (xs + ys)[|xs + ys| - 1] == last;
      assert Somes(xs + ys) == Somes(xs + init) + tail;
      assert Somes(ys) == Somes(init) + tail;
    } else {
      assert xs + ys == xs;
    }
  }

  /** `collect()` of `(key, value)` pairs into a `HashMap`: a later pair replaces an
      earlier one with the same key. */
  function CollectMap(pairs: seq<(string, string)>): (m: map<string, string>)
    ensures m.Keys == set p | p in pairs :: p.0
    ensures forall k :: k in m ==> (k, m[k]) in pairs
    ensures (forall i, j :: 0 <= i < j < |pairs| ==> pairs[i].0 != pairs[j].0) ==>
      forall i :: 0 <= i < |pairs| ==> pairs[i].0 in m && m[pairs[i].0] == pairs[i].1
    decreases |pairs|
  {
    if |pairs| == 0 then map[]
    else
      var init := pairs[..|pairs| - 1];
      var last := pairs[|pairs| - 1];
      assert pairs == init + [last];
      assert forall i :: 0 <= i < |init| ==> init[i] == pairs[i];
      CollectMap(init)[last.0 := last.1]
  }

  /** A later pair replaces an earlier one: a key's value is that of its last pair. */
  lemma {:induction false} CollectMapLastWins(pairs: seq<(string, string)>, i: nat)
    requires i < |pairs|
    requires forall j :: i < j < |pairs| ==> pairs[j].0 != pairs[i].0
    ensures CollectMap(pairs)[pairs[i].0] == pairs[i].1
    decreases |pairs|
  {
    if i < |pairs| - 1 {
      var init := pairs[..|pairs| - 1];
      assert init[i] == pairs[i];
      CollectMapLastWins(init, i);
    }
  }
}

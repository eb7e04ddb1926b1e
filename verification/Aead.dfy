/** A symbolic AEAD (AES-GCM in the program): a ciphertext is a run of opaque cells that
    remember what was sealed, and it opens exactly under the same key, nonce and associated data. */
module Aead {
  import opened ByteStrings

  type Key = Bytes

  const TAG_SIZE := 16

  /** One call of the cipher's encrypt. */
  datatype Sealing = Sealing(key: Key, nonce: Bytes, aad: Bytes, plain: Bytes)

  /** One stored byte: a byte anybody can write, or byte number `at` of a ciphertext. */
  datatype Cell = Raw(value: Byte) | Cipher(sealing: Sealing, at: int)

  type Stored = seq<Cell>

  /** What a reader sees when it takes a cell for a number. The value of a ciphertext byte is
      not modelled and reads as 0: an object that carries one where a header is read behaves
      like the object that carries that byte's value there as a Raw cell. */
  function Value(c: Cell): (r: Byte) {
    if c.Raw? then c.value else 0
  }

  function Values(cells: Stored): (bytes: Bytes) {
    seq(|cells|, i requires 0 <= i < |cells| => Value(cells[i]))
  }

  function Raws(s: Bytes): (cells: Stored) {
    seq(|s|, i requires 0 <= i < |s| => Raw(s[i]))
  }

  function Seal(s: Sealing): (cells: Stored)
    ensures |cells| == |s.plain| + TAG_SIZE
  {
    seq(|s.plain| + TAG_SIZE, i => Cipher(s, i))
  }

  function Open(key: Key, nonce: Bytes, cells: Stored, aad: Bytes): (r: Option<Bytes>)
    ensures r.Some? ==> cells == Seal(Sealing(key, nonce, aad, r.value)) && |cells| == |r.value| + TAG_SIZE
  {
    if |cells| >= TAG_SIZE && cells[0].Cipher? then
      var s := cells[0].sealing;
      if s.key == key && s.nonce == nonce && s.aad == aad && cells == Seal(s) then
        assert s == Sealing(key, nonce, aad, s.plain);
        Some(s.plain)
      else
        None
    else None
  }

  /** The candidates are tried in order and the first that opens wins. */
  function OpenAny(keys: seq<Key>, nonce: Bytes, cells: Stored, aad: Bytes): (r: Option<Bytes>)
    ensures r.Some? ==> |cells| == |r.value| + TAG_SIZE
  {
    if keys == [] then None
    else
      var first := Open(keys[0], nonce, cells, aad);
      if first.Some? then first else OpenAny(keys[1..], nonce, cells, aad)
  }

  /** Whatever opens was sealed, as it stands, under one of the keys. */
  lemma {:induction false} OpenedWasSealed(keys: seq<Key>, nonce: Bytes, cells: Stored, aad: Bytes) returns (k: Key)
    requires OpenAny(keys, nonce, cells, aad).Some?
    ensures k in keys && cells == Seal(Sealing(k, nonce, aad, OpenAny(keys, nonce, cells, aad).value))
  {
    if Open(keys[0], nonce, cells, aad).Some? {
      k := keys[0];
    } else {
      k := OpenedWasSealed(keys[1..], nonce, cells, aad);
    }
  }

  /** Opening a fresh ciphertext gives its plaintext back wherever the key stands among the candidates. */
  lemma {:induction false} OpenSealed(keys: seq<Key>, s: Sealing)
    requires s.key in keys
    ensures OpenAny(keys, s.nonce, Seal(s), s.aad) == Some(s.plain)
  {
    var first := Open(keys[0], s.nonce, Seal(s), s.aad);
    if first.Some? {
      assert Seal(s)[0].sealing == Seal(Sealing(keys[0], s.nonce, s.aad, first.value))[0].sealing;
    } else {
      OpenSealed(keys[1..], s);
    }
  }

  /** Under any other nonce or associated data, or without the key, nothing opens. */
  lemma {:induction false} OpenForeign(keys: seq<Key>, nonce: Bytes, s: Sealing, aad: Bytes)
    requires s.key !in keys || nonce != s.nonce || aad != s.aad
    ensures OpenAny(keys, nonce, Seal(s), aad) == None
  {
    if keys != [] {
      OpenForeign(keys[1..], nonce, s, aad);
    }
  }
}

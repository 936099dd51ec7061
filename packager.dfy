/**
 * The result archive of app.py:146-160: one entry per converted file, in
 * the order the results were first stored, named by the result key and
 * holding the UTF-8 bytes of the Markdown text.  Compression is not
 * modelled; `Unpack` reads the entries back as an archive reader would.
 */
module Packager {
  import opened Wrappers
  import opened Utf8
  import opened OrderedDict

  /** One member of the output archive: `zip_out.writestr(name, data)`. */
  datatype Entry = Entry(name: string, data: seq<byte>)

  /** Every listed key has a text. */
  predicate Covers(keys: seq<string>, texts: map<string, string>)
  {
    forall i :: 0 <= i < |keys| ==> keys[i] in texts
  }

  /** The entries written for `keys`, in that order. */
  function Packed(keys: seq<string>, texts: map<string, string>): (r: seq<Entry>)
    requires Covers(keys, texts)
    ensures |r| == |keys|
  {
    if keys == [] then []
    else
      var last := keys[|keys| - 1];
      Packed(keys[..|keys| - 1], texts) + [Entry(last, Encode(texts[last]))]
  }

  /** Reads an archive back: each entry's bytes decoded as UTF-8, or None if one of them is not. */
  function Unpack(archive: seq<Entry>): Option<map<string, string>>
  {
    if archive == [] then Some(map[])
    else
      var last := archive[|archive| - 1];
      match Unpack(archive[..|archive| - 1])
      case None => None
      case Some(m) =>
        match Decode(last.data)
        case None => None
        case Some(text) => Some(m[last.name := text])
  }

  /** The names of an archive's entries. */
  function Names(archive: seq<Entry>): (r: seq<string>)
    ensures |r| == |archive|
  {
    seq(|archive|, i requires 0 <= i < |archive| => archive[i].name)
  }

  /** The loop over `results.items()` writing the archive. */
  method Package(results: Dict<string>) returns (archive: seq<Entry>)
    requires results.Valid()
    ensures archive == Packed(results.keys, results.entries)
    ensures Names(archive) == results.keys
    ensures |archive| == |results.entries|
    ensures Unpack(archive) == Some(results.entries)
  {
    archive := [];
    var i := 0;
    while i < |results.keys|
      invariant 0 <= i <= |results.keys|
      invariant archive == Packed(results.keys[..i], results.entries)
    {
      var name := results.keys[i];
      var bytes := Encode(results.entries[name]);
      assert results.keys[..i + 1][..i] == results.keys[..i];
      archive := archive + [Entry(name, bytes)];
      i := i + 1;
    }
    assert results.keys[..i] == results.keys;
    PackedDict(results);
  }

  /** The archive of a whole dict: one entry per key, in order, reading back as the dict. */
  lemma PackedDict(results: Dict<string>)
    requires results.Valid()
    ensures Names(Packed(results.keys, results.entries)) == results.keys
    ensures |Packed(results.keys, results.entries)| == |results.entries|
    ensures Unpack(Packed(results.keys, results.entries)) == Some(results.entries)
  {
    PackedNames(results.keys, results.entries);
    ValidSize(results);
    PackedRoundTrip(results.keys, results.entries);
    KeysSpanEntries(results);
  }

  /** A valid dict's entries are its listed keys with their values. */
  lemma KeysSpanEntries(d: Dict<string>)
    requires d.Valid()
    ensures Covers(d.keys, d.entries)
    ensures (map k | k in d.keys :: d.entries[k]) == d.entries
  {
    var m := map k | k in d.keys :: d.entries[k];
    assert m.Keys == d.entries.Keys;
  }

  /** The entries are named by the keys, in order. */
  lemma {:induction false} PackedNames(keys: seq<string>, texts: map<string, string>)
    requires Covers(keys, texts)
    ensures Names(Packed(keys, texts)) == keys
  {
    if keys != [] {
      var front := keys[..|keys| - 1];
      PackedNames(front, texts);
      assert Names(Packed(keys, texts))[..|front|] == Names(Packed(front, texts));
    }
  }

  /**
   * Round trip: reading the archive back gives each key's text, so every
   * entry holds exactly the UTF-8 form of its text.
   */
  lemma {:induction false} PackedRoundTrip(keys: seq<string>, texts: map<string, string>)
    requires Covers(keys, texts)
    ensures Unpack(Packed(keys, texts)) == Some(map k | k in keys :: texts[k])
  {
    if keys != [] {
      var front, last := keys[..|keys| - 1], keys[|keys| - 1];
      var archive, prev := Packed(keys, texts), Packed(front, texts);
      assert archive[..|archive| - 1] == prev;
      PackedRoundTrip(front, texts);
      DecodeEncode(texts[last]);
      MapOfKeysSnoc(keys, texts);
    }
  }

  /** The map of a key list is the map of its front updated with its last key. */
  lemma MapOfKeysSnoc(keys: seq<string>, texts: map<string, string>)
    requires Covers(keys, texts) && keys != []
    ensures (map k | k in keys[..|keys| - 1] :: texts[k])[keys[|keys| - 1] := texts[keys[|keys| - 1]]]
      == map k | k in keys :: texts[k]
  {
    var front, last := keys[..|keys| - 1], keys[|keys| - 1];
    assert forall k :: k in keys <==> k in front || k == last;
  }

  /** Distinct keys give distinct entry names: the archive never holds two members of one name. */
  lemma NamesDistinct(results: Dict<string>)
    requires results.Valid()
    ensures forall i, j :: 0 <= i < j < |results.keys| ==>
      Packed(results.keys, results.entries)[i].name != Packed(results.keys, results.entries)[j].name
  {
    PackedNames(results.keys, results.entries);
    var names := Names(Packed(results.keys, results.entries));
    assert forall i :: 0 <= i < |results.keys| ==> Packed(results.keys, results.entries)[i].name == names[i];
  }
}

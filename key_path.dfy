/** The key path under which an element's value is stored
    (`keyifyIdentity`/`dekeyifyIdentity` and the first step of `_receive` in
    lib/form.js): tag name, type, escaped name and index joined by `/`. */
module KeyPath {
  import opened Wrappers
  import opened Text
  import opened ElementNames

  /** The widget's namespace under the key it is given. */
  const KEY_NAMESPACE_NAME: string := "goinstant-widgets-form"

  /** An element's identity. The index is held as the property key it becomes
      in `keyifyIdentity`'s `join` and in `find`'s `elementsWithName[index]`. */
  datatype Identity = Identity(tagName: string, elType: string, name: string, index: string)

  /** The reason `dekeyifyIdentity` fails: fewer than three segments leave the
      name `undefined`, and `unescape` then throws a TypeError. */
  datatype DecodeError = MissingName

  /** `keyifyIdentity`. */
  function Keyify(id: Identity): string {
    Join([id.tagName, id.elType, id.name, id.index], '/')
  }

  /** `dekeyifyIdentity`: splits on `/` and unescapes the name. A missing fourth
      segment leaves the index `undefined`, which is the property key
      "undefined". */
  function Dekeyify(key: string): (r: Result<Identity, DecodeError>)
    ensures r.Ok? <==> |Split(key, '/')| >= 3
    ensures r.Ok? ==> (r.value.tagName == Split(key, '/')[0]
                       && r.value.elType == Split(key, '/')[1]
                       && r.value.name == Unescape(Split(key, '/')[2]))
  {
    var parts := Split(key, '/');
    if |parts| < 3 then Err(MissingName)
    else Ok(Identity(parts[0], parts[1], Unescape(parts[2]),
                     if |parts| >= 4 then parts[3] else "undefined"))
  }

  /** `_receive`'s first step: the last four `/`-separated segments of the full
      key the platform reports. */
  function ReceivePath(fullKey: string): string {
    Join(Last(Split(fullKey, '/'), 4), '/')
  }

  /** No part of the identity holds the separator. */
  predicate Encodable(id: Identity) {
    '/' !in id.tagName && '/' !in id.elType && '/' !in id.name && '/' !in id.index
  }

  lemma SplitKeyify(id: Identity)
    requires Encodable(id)
    ensures Split(Keyify(id), '/') == [id.tagName, id.elType, id.name, id.index]
  {
    SplitJoin([id.tagName, id.elType, id.name, id.index], '/');
  }

  /** Decoding inverts encoding, up to the unescaping of the name. */
  lemma DekeyifyKeyify(id: Identity)
    requires Encodable(id)
    ensures Dekeyify(Keyify(id)) == Ok(id.(name := Unescape(id.name)))
  {
    SplitKeyify(id);
  }

  /** Whatever the platform puts in front of an encoded identity, `_receive`
      works on the identity's own four segments. */
  lemma ReceivePathPrefixed(prefix: string, id: Identity)
    requires Encodable(id)
    ensures ReceivePath(prefix + "/" + Keyify(id)) == Keyify(id)
    ensures ReceivePath(Keyify(id)) == Keyify(id)
  {
    var parts := [id.tagName, id.elType, id.name, id.index];
    SplitKeyify(id);
    SplitConcat(prefix, Keyify(id), '/');
    assert prefix + "/" + Keyify(id) == prefix + ['/'] + Keyify(id);
    var all := Split(prefix, '/') + parts;
    assert Last(all, 4) == parts;
    assert Last(parts, 4) == parts;
  }

  /** The unit test's identity: the second text input named `something`. */
  lemma KeyifyExample()
    ensures Keyify(Identity("INPUT", "text", "something", "1")) == "INPUT/text/something/1"
  {
  }

  /** A key path under any prefix decodes to the identity it encodes, with
      the name unescaped. */
  lemma PrefixedKeyDecodes(prefix: string, id: Identity)
    requires Encodable(id)
    ensures Dekeyify(ReceivePath(prefix + "/" + Keyify(id))) == Ok(id.(name := Unescape(id.name)))
  {
    ReceivePathPrefixed(prefix, id);
    DekeyifyKeyify(id);
  }

  /** The unit test's full key `nested/` + `INPUT/text/something/1` addresses
      the text input named `something` with index 1. */
  lemma NestedKeyExample(prefix: string)
    ensures Dekeyify(ReceivePath(prefix + "/" + Keyify(Identity("INPUT", "text", "something", "1"))))
         == Ok(Identity("INPUT", "text", "something", "1"))
  {
    var id := Identity("INPUT", "text", "something", "1");
    assert Encodable(id);
    PrefixedKeyDecodes(prefix, id);
    assert '-' !in id.name;
    UnescapePlain(id.name);
  }

  /** Two segments are not enough: the name is missing. */
  lemma ShortKeyFails(a: string, b: string)
    requires '/' !in a && '/' !in b
    ensures Dekeyify(a + "/" + b) == Err(MissingName)
  {
    SplitConcat(a, b, '/');
    assert a + "/" + b == a + ['/'] + b;
    SplitNoSep(a, '/');
    SplitNoSep(b, '/');
  }
}

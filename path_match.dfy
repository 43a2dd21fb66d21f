/**
 * io.undertow.predicate.PathMatchPredicate: the `path[...]` predicate, true
 * when the exchange's relative path equals the configured path ignoring
 * ASCII case, whether or not either starts with '/'.
 */
module PathMatch {
  import opened Octets
  import opened HttpStrings

  /** The two spellings the constructor keeps: with and without the leading slash. */
  datatype PathMatchPredicate = PathMatchPredicate(slashPath: string, path: string)

  predicate StartsWithSlash(s: string) {
    |s| > 0 && s[0] == '/'
  }

  /** relativePath.startsWith('/'): HttpString.startsWith is not part of this model; its first byte is taken. */
  predicate BytesStartWithSlash(b: seq<Byte>) {
    |b| > 0 && b[0] == '/' as int
  }

  /** new PathMatchPredicate(path) (PathMatchPredicate.java:18-26). */
  function Make(p: string): (m: PathMatchPredicate)
    ensures m.slashPath == "/" + m.path
    ensures StartsWithSlash(p) ==> m.slashPath == p
    ensures !StartsWithSlash(p) ==> m.path == p
  {
    if StartsWithSlash(p) then PathMatchPredicate(p, p[1..]) else PathMatchPredicate("/" + p, p)
  }

  /** resolve (PathMatchPredicate.java:29-36): equalToString against the spelling that agrees on the leading slash. */
  function Resolve(m: PathMatchPredicate, relativePath: seq<Byte>): bool {
    if BytesStartWithSlash(relativePath) then BytesEqualToString(relativePath, m.slashPath)
    else BytesEqualToString(relativePath, m.path)
  }

  /** With a slash put in front when it is missing. */
  function Rooted(relativePath: seq<Byte>): seq<Byte> {
    if BytesStartWithSlash(relativePath) then relativePath else ['/' as int] + relativePath
  }

  /** A relative path matches exactly when, rooted, it equals the rooted configured path ignoring ASCII case. */
  lemma ResolveMeaning(p: string, relativePath: seq<Byte>)
    ensures Resolve(Make(p), relativePath) <==> FoldEqual(Rooted(relativePath), LowBytes(Make(p).slashPath))
  {
    var m := Make(p);
    BytesEqualToStringIsFoldEqual(relativePath, m.slashPath);
    BytesEqualToStringIsFoldEqual(relativePath, m.path);
    if !BytesStartWithSlash(relativePath) {
      var a := ['/' as int] + relativePath;
      var b := LowBytes(m.slashPath);
      assert b == ['/' as int] + LowBytes(m.path);
      if FoldEqual(a, b) {
        forall i | 0 <= i < |relativePath|
          ensures UpperCase(relativePath[i]) == UpperCase(LowBytes(m.path)[i])
        {
          assert a[i + 1] == relativePath[i] && b[i + 1] == LowBytes(m.path)[i];
        }
      }
    }
  }

  /** Configuring "/p" and "p" gives the same predicate. */
  lemma LeadingSlashIsOptional(p: string)
    requires !StartsWithSlash(p)
    ensures Make("/" + p) == Make(p)
  {
    assert ("/" + p)[1..] == p;
  }

  /** path[foo] matches "foo" and "/foo", and path[/foo] matches "FOO". */
  lemma PathFooMatches()
    ensures Resolve(Make("foo"), LowBytes("foo"))
    ensures Resolve(Make("foo"), LowBytes("/foo"))
    ensures Resolve(Make("/foo"), LowBytes("FOO"))
  {
    assert ("/foo")[1..] == "foo";
    var m := PathMatchPredicate("/foo", "foo");
    assert Make("foo") == m && Make("/foo") == m;
    assert LowBytes("foo")[0] == 102 && LowBytes("/foo")[0] == 47 && LowBytes("FOO")[0] == 70;
    EqualsItsOwnBytes("foo");
    EqualsItsOwnBytes("/foo");
    UpperFooEqual();
  }

  /** A string's own low bytes equal it ignoring case. */
  lemma EqualsItsOwnBytes(t: string)
    ensures BytesEqualToString(LowBytes(t), t)
  {
    forall i | 0 <= i < |t|
      ensures UpperCase(LowBytes(t)[i]) == UpperCase(LowByte(t[i]))
    {
    }
  }

  /** "FOO", as bytes, equals the string "foo" ignoring case. */
  lemma UpperFooEqual()
    ensures BytesEqualToString(LowBytes("FOO"), "foo")
  {
    var b := LowBytes("FOO");
    assert b[0] == 70 && b[1] == 79 && b[2] == 79;
    assert UpperCase(102) == 70 && UpperCase(111) == 79 && UpperCase(70) == 70 && UpperCase(79) == 79;
    assert LowByte('f') == 102 && LowByte('o') == 111;
    forall i | 0 <= i < 3
      ensures UpperCase(b[i]) == UpperCase(LowByte("foo"[i]))
    {
    }
  }

  /** path[foo] does not match "bob" or "foo/". */
  lemma PathFooRejects()
    ensures !Resolve(Make("foo"), LowBytes("bob"))
    ensures !Resolve(Make("foo"), LowBytes("foo/"))
  {
    assert LowBytes("bob")[0] == 98 && LowByte("foo"[0]) == 102;
    assert UpperCase(98) != UpperCase(102);
    assert |LowBytes("foo/")| == 4;
  }
}

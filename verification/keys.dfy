/**
  * Deriving the identity key of a stored photo from its object name:
  * `file.name.split('/').pop()` followed by `.split('.').shift()`.
  */
module Keys {

  /** Glues `parts` back together with `sep` between consecutive parts. */
  function Join(parts: seq<string>, sep: char): string
    requires |parts| >= 1
    decreases |parts|
  {
    if |parts| == 1 then parts[0] else parts[0] + [sep] + Join(parts[1..], sep)
  }

  /** A name with neither a directory separator nor a dot: what an identity key looks like. */
  predicate Bare(name: string) {
    '/' !in name && '.' !in name
  }

  /** The last element of a non-empty list of parts (`Array.prototype.pop` on a fresh array). */
  function Last(parts: seq<string>): (last: string)
    requires |parts| >= 1
    ensures parts == parts[..|parts| - 1] + [last]
  {
    parts[|parts| - 1]
  }

  /**
    * `s.split(sep)` for a one-character separator: the maximal runs of `s`
    * between separators, in order; an empty string splits into one empty part.
    */
  function Split(s: string, sep: char): (parts: seq<string>)
    ensures |parts| >= 1
    ensures forall k :: 0 <= k < |parts| ==> sep !in parts[k]
    ensures sep !in s ==> parts == [s]
    ensures sep in s ==> |parts| >= 2
    ensures parts[0] <= s
    decreases |s|
  {
    if s == [] then [[]]
    else
      var rest := Split(s[1..], sep);
      assert s == [s[0]] + s[1..];
      if s[0] == sep then [[]] + rest
      else
        var parts := [[s[0]] + rest[0]] + rest[1..];
        assert forall k :: 1 <= k < |parts| ==> parts[k] == rest[k];
        parts
  }

  /** Splitting and joining back with the same separator is the identity. */
  lemma {:induction false} JoinSplit(s: string, sep: char)
    ensures Join(Split(s, sep), sep) == s
    decreases |s|
  {
    if s != [] {
      JoinSplit(s[1..], sep);
      var rest := Split(s[1..], sep);
      assert s == [s[0]] + s[1..];
      if s[0] != sep {
        var parts := [[s[0]] + rest[0]] + rest[1..];
        assert Split(s, sep) == parts;
        if |rest| >= 2 {
          assert parts[1..] == rest[1..];
        }
      }
    }
  }

  /** `name.split('/').pop()`: the object name without its directory prefix. */
  function LastSegment(path: string): (segment: string)
    ensures '/' !in segment
  {
    Last(Split(path, '/'))
  }

  /** `fullName.split('.').shift()`: everything before the first dot. */
  function BaseName(fileName: string): (base: string)
    ensures '.' !in base
    ensures base <= fileName
  {
    Split(fileName, '.')[0]
  }

  /** The identity key under which a stored photo is indexed and its person record is looked up. */
  function IdentityKey(path: string): (key: string)
    ensures Bare(key)
    ensures Bare(path) ==> key == path
  {
    var segment := LastSegment(path);
    var key := BaseName(segment);
    assert key == segment[..|key|];
    key
  }

  /** The part after a final separator is the last part of the split. */
  lemma {:induction false} LastPartAfterSep(pre: string, t: string, sep: char)
    requires pre == [] || pre[|pre| - 1] == sep
    requires sep !in t
    ensures Last(Split(pre + t, sep)) == t
    decreases |pre|
  {
    if pre == [] {
      assert pre + t == t;
    } else {
      var s := pre + t;
      assert s[1..] == pre[1..] + t;
      var rest := Split(s[1..], sep);
      if pre[1..] == [] {
        assert s[0] == sep && s[1..] == t;
        assert Split(s, sep) == [[]] + rest;
      } else {
        LastPartAfterSep(pre[1..], t, sep);
        assert Last(rest) == t;
        assert s[1..][|pre| - 2] == sep;
        assert |rest| >= 2;
        if s[0] == sep {
          assert Split(s, sep) == [[]] + rest;
        } else {
          assert Split(s, sep) == [[s[0]] + rest[0]] + rest[1..];
        }
      }
    }
  }

  /** The part before a leading separator is the first part of the split. */
  lemma {:induction false} FirstPartBeforeSep(t: string, rest: string, sep: char)
    requires sep !in t
    requires rest == [] || rest[0] == sep
    ensures Split(t + rest, sep)[0] == t
    decreases |t|
  {
    if t == [] {
      assert t + rest == rest;
    } else {
      assert (t + rest)[1..] == t[1..] + rest;
      FirstPartBeforeSep(t[1..], rest, sep);
      assert t == [t[0]] + t[1..];
    }
  }

  /**
    * Composing an object name from a directory prefix, a bare name and an
    * extension, and then deriving the key, gives back the bare name.
    */
  lemma KeyOfComposedPath(dir: string, name: string, ext: string)
    requires dir == [] || dir[|dir| - 1] == '/'
    requires Bare(name)
    requires '/' !in ext && (ext == [] || ext[0] == '.')
    ensures IdentityKey(dir + name + ext) == name
  {
    assert dir + name + ext == dir + (name + ext);
    assert '/' !in name + ext;
    LastPartAfterSep(dir, name + ext, '/');
    FirstPartBeforeSep(name, ext, '.');
  }

  /** `img/alice.jpg` is indexed under `alice`. */
  lemma AliceKey()
    ensures IdentityKey("img/alice.jpg") == "alice"
  {
    assert "img/" + "alice" + ".jpg" == "img/alice.jpg";
    KeyOfComposedPath("img/", "alice", ".jpg");
  }

  /** Only the text before the first dot survives: `img/a.b.jpg` is indexed under `a`. */
  lemma FirstDotKey()
    ensures IdentityKey("img/a.b.jpg") == "a"
  {
    assert "img/" + "a" + ".b.jpg" == "img/a.b.jpg";
    KeyOfComposedPath("img/", "a", ".b.jpg");
  }

  /** A file whose name starts with its extension, `img/.jpg`, yields the empty key. */
  lemma DotFileKey()
    ensures IdentityKey("img/.jpg") == ""
  {
    assert "img/" + "" + ".jpg" == "img/.jpg";
    KeyOfComposedPath("img/", "", ".jpg");
  }

  /** The directory placeholder object `img/` yields the empty key. */
  lemma PlaceholderKey()
    ensures IdentityKey("img/") == ""
  {
    assert "img/" + "" + "" == "img/";
    KeyOfComposedPath("img/", "", "");
  }
}

/** How the scripts name the files they write: `<stem>_<timestamp>.<ext>` inside a
    results directory, with the stem taken from an input path or a prompt. */
module Naming {
  import opened Wrappers
  import opened Text

  /** Python's `os.path.join(a, b)` on POSIX: an absolute `b` replaces `a`, and a
      separator is inserted only when `a` is non-empty and does not already end in one. */
  function PathJoin(a: string, b: string): (r: string)
    ensures |b| <= |r| && r[|r| - |b|..] == b
    ensures (|b| == 0 || b[0] != '/') ==> a <= r
    ensures |b| > 0 && b[0] == '/' ==> r == b
    ensures (|b| == 0 || b[0] != '/') ==>
      r == a + (if |a| > 0 && a[|a| - 1] != '/' then "/" else "") + b
  {
    if |b| > 0 && b[0] == '/' then b
    else if |a| == 0 || a[|a| - 1] == '/' then a + b
    else a + "/" + b
  }

  /** The last path component: everything after the last '/' (Python's `PurePath.name`
      for a path without a trailing separator). */
  function Basename(path: string): (r: string)
    ensures '/' !in r
    ensures |r| <= |path| && r == path[|path| - |r|..]
    ensures |r| < |path| ==> path[|path| - |r| - 1] == '/'
  {
    path[RFindChar(path, '/') + 1..]
  }

  /** Joining a relative name with no separator in it and taking the base name
      gives the name back. */
  lemma BasenameOfJoin(dir: string, name: string)
    requires '/' !in name
    requires |name| > 0
    ensures Basename(PathJoin(dir, name)) == name
  {
    var p := PathJoin(dir, name);
    var i := RFindChar(p, '/');
    assert p[|p| - |name|..] == name;
    if |p| > |name| {
      assert p[|p| - |name| - 1] == '/';
    }
  }

  /** Python's `PurePath.stem` (CPython 3.8 to 3.13): the name without its last
      suffix, where a suffix needs a '.' that is neither the first nor the last
      character of the name. */
  function Stem(path: string): (r: string)
    ensures '/' !in r
    ensures r <= Basename(path)
    ensures var name := Basename(path);
      r == name
      || (0 < |r| < |name| - 1 && name[|r|] == '.' && forall j :: |r| < j < |name| ==> name[j] != '.')
    ensures var name := Basename(path);
      r == name ==> forall i :: 0 < i < |name| - 1 && name[i] == '.' ==> exists j :: i < j < |name| && name[j] == '.'
  {
    var name := Basename(path);
    var i := RFindChar(name, '.');
    LastDotFacts(name, i);
    if 0 < i < |name| - 1 then name[..i] else name
  }

  /** What the last '.' of a name says about its suffix: after an interior last
      '.' no '.' follows, and when the last '.' is not interior, every interior
      '.' has another one after it. */
  lemma LastDotFacts(name: string, i: int)
    requires i == RFindChar(name, '.')
    ensures 0 < i < |name| - 1 ==> name[i] == '.' && forall j :: i < j < |name| ==> name[j] != '.'
    ensures !(0 < i < |name| - 1) ==>
      forall k :: 0 < k < |name| - 1 && name[k] == '.' ==> exists j :: k < j < |name| && name[j] == '.'
  {
    if !(0 < i < |name| - 1) {
      forall k | 0 < k < |name| - 1 && name[k] == '.'
        ensures exists j :: k < j < |name| && name[j] == '.'
      {
        assert name[k] in name;
        assert i == |name| - 1;
      }
    }
  }

  /** A non-empty stem with a suffix of its own extension comes back out of `Stem`. */
  lemma StemOfNamedFile(dir: string, stem: string, ext: string)
    requires |stem| > 0 && '/' !in stem
    requires |ext| > 0 && '/' !in ext && '.' !in ext
    ensures Stem(PathJoin(dir, stem + "." + ext)) == stem
  {
    NamedFileFacts(stem, ext);
    BasenameOfJoin(dir, stem + "." + ext);
    StemOfBasename(PathJoin(dir, stem + "." + ext), stem, ext);
  }

  /** The stem of any path whose last component is `<stem>.<ext>`. */
  lemma StemOfBasename(path: string, stem: string, ext: string)
    requires |stem| > 0 && |ext| > 0
    requires Basename(path) == stem + "." + ext
    requires forall k :: |stem| < k < |stem| + 1 + |ext| ==> Basename(path)[k] != '.'
    ensures Stem(path) == stem
  {
    var name := Basename(path);
    var r := Stem(path);
    assert r != name by {
      assert 0 < |stem| < |name| - 1 && name[|stem|] == '.';
    }
    assert name[|r|] == '.' && forall j :: |r| < j < |name| ==> name[j] != '.';
    assert name[|stem|] == '.';
    assert |r| == |stem|;
    assert r == name[..|r|];
    assert name[..|stem|] == stem;
  }

  /** The characters of `<stem>.<ext>`: no separator, a '.' right after the stem,
      and none after it. */
  lemma NamedFileFacts(stem: string, ext: string)
    requires '/' !in stem
    requires '/' !in ext && '.' !in ext
    ensures var name := stem + "." + ext;
      && '/' !in name && name[|stem|] == '.'
      && forall k :: |stem| < k < |name| ==> name[k] != '.'
  {
    var name := stem + "." + ext;
    forall k | |stem| < k < |name| ensures name[k] != '.' {
      assert name[k] == ext[k - |stem| - 1];
    }
    forall k | 0 <= k < |name| ensures name[k] != '/' {
      if k < |stem| { assert name[k] == stem[k]; }
      else if k > |stem| { assert name[k] == ext[k - |stem| - 1]; }
    }
  }

  /** A file written by a script: where it went and what it holds. */
  datatype SavedFile<T> = SavedFile(path: string, content: T)

  /** The file name `<stem>_<timestamp>.<ext>` shared by the scripts that save results. */
  function ResultFileName(stem: string, timestamp: string, ext: string): string
  {
    stem + "_" + timestamp + "." + ext
  }

  /** Reads a result file name back into its stem and timestamp, given the
      timestamp's length (the `%Y%m%d_%H%M%S` format always has 15 characters)
      and the extension. */
  function ParseResultFileName(name: string, timestampLength: nat, ext: string): (r: Option<(string, string)>)
    ensures r.Some? ==> ResultFileName(r.value.0, r.value.1, ext) == name
    ensures r.Some? ==> |r.value.1| == timestampLength
  {
    var tail := 1 + timestampLength + 1 + |ext|;
    if |name| < tail then None
    else
      var k := |name| - tail;
      if name[k] == '_' && name[k + 1 + timestampLength] == '.' && name[k + 2 + timestampLength..] == ext then
        var r := (name[..k], name[k + 1..k + 1 + timestampLength]);
        assert ResultFileName(r.0, r.1, ext) == name by {
          assert name == name[..k] + [name[k]] + name[k + 1..k + 1 + timestampLength]
                         + [name[k + 1 + timestampLength]] + name[k + 2 + timestampLength..];
        }
        Some(r)
      else None
  }

  /** The stem and timestamp are recoverable from the name they build. */
  lemma ResultFileNameRoundTrip(stem: string, timestamp: string, ext: string)
    ensures ParseResultFileName(ResultFileName(stem, timestamp, ext), |timestamp|, ext) == Some((stem, timestamp))
  {
    var name := ResultFileName(stem, timestamp, ext);
    var k := |stem|;
    assert name[k] == '_';
    assert name[k + 1 + |timestamp|] == '.';
    assert name[k + 2 + |timestamp|..] == ext;
    assert name[..k] == stem;
    assert name[k + 1..k + 1 + |timestamp|] == timestamp;
  }

  /** Hence two saves with same-length timestamps and the same extension write the
      same file only when both stem and timestamp agree. */
  lemma ResultFileNameInjective(s1: string, t1: string, s2: string, t2: string, ext: string)
    requires |t1| == |t2|
    requires ResultFileName(s1, t1, ext) == ResultFileName(s2, t2, ext)
    ensures s1 == s2 && t1 == t2
  {
    ResultFileNameRoundTrip(s1, t1, ext);
    ResultFileNameRoundTrip(s2, t2, ext);
  }
}

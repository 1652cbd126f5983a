/**
 * The storage path of an uploaded blog image: the file's extension is the last
 * `.`-separated segment of its name, and the object is stored at
 * `blog-images/<userId>/<timestamp>.<extension>`. The timestamp (`Date.now()`)
 * is a parameter.
 */
module ImageUpload {
  /** `s.split(sep)`: the maximal separator-free segments, at least one. */
  function Split(s: string, sep: char): (r: seq<string>)
    ensures |r| >= 1
    ensures forall i :: 0 <= i < |r| ==> sep !in r[i]
    decreases |s|
  {
    if |s| == 0 then [""]
    else
      var rest := Split(s[1..], sep);
      if s[0] == sep then [""] + rest
      else [[s[0]] + rest[0]] + rest[1..]
  }

  /** `segments.join(sep)`. */
  function Join(segments: seq<string>, sep: char): string
    decreases |segments|
  {
    if |segments| == 0 then ""
    else if |segments| == 1 then segments[0]
    else segments[0] + [sep] + Join(segments[1..], sep)
  }

  /** Joining the segments gives back the string that was split. */
  lemma {:induction false} JoinSplit(s: string, sep: char)
    ensures Join(Split(s, sep), sep) == s
    decreases |s|
  {
    if |s| > 0 {
      var rest := Split(s[1..], sep);
      JoinSplit(s[1..], sep);
      if s[0] == sep {
        assert ([""] + rest)[1..] == rest;
        assert s == [sep] + s[1..];
      } else {
        var r := [[s[0]] + rest[0]] + rest[1..];
        assert r[1..] == rest[1..];
        if |rest| == 1 {
          assert s == [s[0]] + s[1..];
        } else {
          assert Join(rest, sep) == rest[0] + [sep] + Join(rest[1..], sep);
          assert s == [s[0]] + s[1..];
        }
      }
    }
  }

  /** A string splits into one segment exactly when it holds no separator, and that segment is the string. */
  lemma {:induction false} SplitSingle(s: string, sep: char)
    ensures |Split(s, sep)| == 1 <==> sep !in s
    ensures sep !in s ==> Split(s, sep) == [s]
    decreases |s|
  {
    if |s| > 0 {
      SplitSingle(s[1..], sep);
      assert s == [s[0]] + s[1..];
    }
  }

  /**
   * The last segment is a suffix of the string; when there are several segments
   * it is preceded by a separator, and when there is one it is the whole string.
   */
  lemma {:induction false} SplitLast(s: string, sep: char)
    ensures var r := Split(s, sep); var e := r[|r| - 1];
      |e| <= |s| && s[|s| - |e|..] == e &&
      (|r| == 1 ==> e == s) &&
      (|r| > 1 ==> |e| < |s| && s[|s| - |e| - 1] == sep)
    decreases |s|
  {
    if |s| > 0 {
      var t := s[1..];
      SplitLast(t, sep);
      var rest := Split(t, sep);
      var e := rest[|rest| - 1];
      assert s == [s[0]] + t;
      if s[0] == sep {
        assert Split(s, sep) == [""] + rest;
        assert s[|s| - |e|..] == t[|t| - |e|..];
      } else {
        assert Split(s, sep) == [[s[0]] + rest[0]] + rest[1..];
        if |rest| > 1 {
          assert s[|s| - |e|..] == t[|t| - |e|..];
          assert s[|s| - |e| - 1] == t[|t| - |e| - 1];
        }
      }
    }
  }

  /** `file.name.split('.').pop()`; split never yields an empty list, so pop always has a value. */
  function FileExt(name: string): (ext: string)
    ensures '.' !in ext
  {
    var parts := Split(name, '.');
    parts[|parts| - 1]
  }

  /**
   * The extension has no dot and is a suffix of the name. A name without a dot is
   * its own extension; otherwise the name is some prefix, a dot, and the extension.
   */
  lemma FileExtShape(name: string)
    ensures '.' !in FileExt(name)
    ensures |FileExt(name)| <= |name| && name[|name| - |FileExt(name)|..] == FileExt(name)
    ensures '.' !in name ==> FileExt(name) == name
    ensures '.' in name ==>
      |FileExt(name)| < |name| &&
      name == name[..|name| - |FileExt(name)| - 1] + "." + FileExt(name)
  {
    SplitSingle(name, '.');
    SplitLast(name, '.');
    var e := FileExt(name);
    var r := Split(name, '.');
    assert e == r[|r| - 1];
    if '.' in name {
      var k := |name| - |e| - 1;
      assert name == name[..k] + [name[k]] + name[k + 1..];
    }
  }

  /** A dot-free extension appended after a dot is read back as the extension. */
  lemma FileExtOfDotted(prefix: string, ext: string)
    requires '.' !in ext
    ensures FileExt(prefix + "." + ext) == ext
  {
    var s := prefix + "." + ext;
    var n := |s|;
    assert s[n - |ext| - 1] == '.';
    assert s[n - |ext|..] == ext;
    FileExtShape(s);
    var e := FileExt(s);
    assert '.' in s;
    assert s[n - |e| - 1] == '.' by {
      SplitSingle(s, '.');
      SplitLast(s, '.');
    }
  }

  /** The decimal rendering of a non-negative integer, as a template literal produces it. */
  function Decimal(n: nat): (r: string)
    ensures |r| >= 1
    ensures forall i :: 0 <= i < |r| ==> '0' <= r[i] <= '9'
    ensures r[0] == '0' <==> n == 0
    ensures |r| > 1 ==> r[0] != '0'
    decreases n
  {
    var digit := ['0' + (n % 10) as char];
    if n < 10 then digit else Decimal(n / 10) + digit
  }

  /** The value of a string of decimal digits. */
  function DigitsValue(s: string): int
    decreases |s|
  {
    if |s| == 0 then 0 else 10 * DigitsValue(s[..|s| - 1]) + (s[|s| - 1] as int - '0' as int)
  }

  /** The rendering reads back as the same number. */
  lemma {:induction false} DecimalValue(n: nat)
    ensures DigitsValue(Decimal(n)) == n
    decreases n
  {
    var r := Decimal(n);
    if n >= 10 {
      DecimalValue(n / 10);
      assert r[..|r| - 1] == Decimal(n / 10);
    }
  }

  /** `fileName`: `<userId>/<timestamp>.<extension>`. */
  function FileName(userId: string, timestamp: nat, name: string): string
  {
    userId + "/" + Decimal(timestamp) + "." + FileExt(name)
  }

  /** `filePath`: the file name under the `blog-images/` directory. */
  function FilePath(userId: string, timestamp: nat, name: string): string
  {
    "blog-images/" + FileName(userId, timestamp, name)
  }

  /** The three parts of a concatenation can be sliced back out. */
  lemma SliceParts(a: string, b: string, c: string)
    ensures (a + b + c)[..|a|] == a
    ensures (a + b + c)[|a|..|a| + |b|] == b
    ensures (a + b + c)[|a| + |b|..] == c
  {
  }

  /**
   * The path lies in the user's directory, ends with a dot and the file's
   * extension, names the file by the timestamp's digits, and splitting it on
   * dots yields the original extension again.
   */
  lemma FilePathSpec(userId: string, timestamp: nat, name: string)
    ensures var path := FilePath(userId, timestamp, name);
      var dir := "blog-images/" + userId + "/";
      var ext := FileExt(name);
      |path| == |dir| + |Decimal(timestamp)| + 1 + |ext| &&
      path[..|dir|] == dir &&
      path[|dir|..|dir| + |Decimal(timestamp)|] == Decimal(timestamp) &&
      path[|dir| + |Decimal(timestamp)|..] == "." + ext &&
      FileExt(path) == ext
  {
    var dir := "blog-images/" + userId + "/";
    var ext := FileExt(name);
    var digits := Decimal(timestamp);
    var path := FilePath(userId, timestamp, name);
    var tail := "." + ext;
    calc {
      path;
      "blog-images/" + (userId + "/" + digits + "." + ext);
      { assert userId + "/" + digits + "." + ext == (userId + "/") + digits + tail; }
      "blog-images/" + ((userId + "/") + digits + tail);
      dir + digits + tail;
    }
    SliceParts(dir, digits, tail);
    FileExtShape(name);
    assert dir + digits + tail == (dir + digits) + "." + ext;
    FileExtOfDotted(dir + digits, ext);
  }
}

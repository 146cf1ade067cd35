/** The checks and the stored-file name of the image upload handler. Reading
    the file's size and sending it to storage are I/O: the size, the caller's
    UID and the formatted local clock reading are parameters. */
module Upload {
  import opened Records

  const Jpeg: string := "image/jpeg"
  const Png: string := "image/png"
  const MaxSize: nat := 5 * 1024 * 1024

  /** The content-type test comes first, then the size limit. */
  function CheckUpload(contentType: string, size: nat): (r: Outcome<Reason>)
    ensures r.Pass? <==> (contentType == Jpeg || contentType == Png) && size <= MaxSize
    ensures contentType != Jpeg && contentType != Png ==> r == Fail(UnsupportedType)
    ensures r == Fail(FileTooLarge) ==> size > MaxSize
    ensures (contentType == Jpeg || contentType == Png) && size > MaxSize ==> r == Fail(FileTooLarge)
  {
    if contentType != Jpeg && contentType != Png then Fail(UnsupportedType)
    else if size > MaxSize then Fail(FileTooLarge)
    else Pass
  }

  /** `filename.split(".")[-1]`: the text after the last '.', or the whole
      name when it has none (see ExtensionIsSuffix). */
  function Extension(filename: string): (ext: string)
    ensures '.' !in ext
  {
    if filename == [] then []
    else if filename[|filename| - 1] == '.' then []
    else Extension(filename[..|filename| - 1]) + [filename[|filename| - 1]]
  }

  /** The extension is a dot-free suffix of the name, preceded by a '.'
      unless it is the whole name, which it is when the name has no '.'. */
  lemma {:induction false} ExtensionIsSuffix(filename: string)
    ensures var ext := Extension(filename);
            && |ext| <= |filename| && ext == filename[|filename| - |ext|..]
            && (|ext| < |filename| ==> filename[|filename| - |ext| - 1] == '.')
            && ('.' !in filename ==> ext == filename)
  {
    if filename != [] && filename[|filename| - 1] != '.' {
      var n := |filename|;
      var init := filename[..n - 1];
      ExtensionIsSuffix(init);
      var e0 := Extension(init);
      assert filename[n - 1 - |e0|..] == init[n - 1 - |e0|..] + [filename[n - 1]];
      if |e0| < |init| {
        assert filename[n - 1 - |e0| - 1] == init[n - 1 - |e0| - 1];
      }
      if '.' !in filename {
        assert '.' !in init by {
          forall i | 0 <= i < |init| ensures init[i] != '.' { assert init[i] == filename[i]; }
        }
        assert filename == init + [filename[n - 1]];
      }
    }
  }

  /** Appending a character extends the extension, or empties it for a '.'. */
  lemma ExtensionStep(s: string, c: char)
    ensures Extension(s + [c]) == if c == '.' then [] else Extension(s) + [c]
  {
    assert (s + [c])[..|s|] == s;
  }

  /** The number a string of decimal digits denotes. */
  function DigitsValue(s: string): nat
    requires forall i | 0 <= i < |s| :: '0' <= s[i] <= '9'
  {
    if s == [] then 0
    else 10 * DigitsValue(s[..|s| - 1]) + (s[|s| - 1] as int - '0' as int)
  }

  /** The decimal digits of `n`, as an f-string prints an int: they denote
      `n`, with no leading zero. */
  function Decimal(n: nat): (s: string)
    ensures |s| > 0 && '.' !in s
    ensures forall i | 0 <= i < |s| :: '0' <= s[i] <= '9'
    ensures DigitsValue(s) == n
    ensures |s| == 1 || s[0] != '0'
  {
    if n < 10 then [Digit(n)]
    else
      var front := Decimal(n / 10);
      var s := front + [Digit(n % 10)];
      assert s[..|s| - 1] == front;
      assert |front| == 1 ==> front[0] != '0' by {
        if |front| == 1 {
          assert front[..0] == [];
        }
      }
      assert s[0] == front[0];
      s
  }

  function Digit(d: nat): (c: char)
    requires d < 10
    ensures '0' <= c <= '9' && c as int - '0' as int == d
  {
    "0123456789"[d]
  }

  /** `upload_image` up to the upload: the stored name is
      `<UID>_<YYYYmmddHHMMSS>.<extension>`. */
  function StoredName(contentType: string, size: nat, uid: nat, stamp: string, filename: string): (r: Result<string, Reason>)
    ensures r.Success? <==> CheckUpload(contentType, size).Pass?
    ensures r.Failure? ==> r.error == CheckUpload(contentType, size).error
  {
    match CheckUpload(contentType, size)
    case Fail(e) => Failure(e)
    case Pass => Success(Decimal(uid) + "_" + stamp + "." + Extension(filename))
  }

  /** Whatever precedes it, a name ending in '.' and a dot-free extension
      has exactly that extension. */
  lemma {:induction false} ExtensionAfterDot(prefix: string, ext: string)
    requires '.' !in ext
    ensures Extension(prefix + "." + ext) == ext
  {
    if ext == [] {
      assert prefix + "." + ext == prefix + ['.'];
      ExtensionStep(prefix, '.');
    } else {
      var init, c := ext[..|ext| - 1], ext[|ext| - 1];
      assert ext == init + [c];
      assert prefix + "." + ext == (prefix + "." + init) + [c];
      ExtensionAfterDot(prefix, init);
      ExtensionStep(prefix + "." + init, c);
    }
  }

  /** Appending never disturbs the front of a name. */
  lemma PrefixKept(head: string, stamp: string, ext: string)
    ensures (head + stamp + "." + ext)[..|head|] == head
    ensures (head + stamp + "." + ext)[..|head| + |stamp| + 1] == head + stamp + "."
    ensures (head + stamp + "." + ext)[|head| + |stamp| + 1..] == ext
  {
    var n := head + stamp + "." + ext;
    assert forall k | 0 <= k < |head| :: n[k] == head[k];
    assert n == (head + stamp + ".") + ext;
  }

  /** The stored name is the caller's UID, an underscore, the timestamp and
      a '.', followed by the uploaded file's extension, which the stored
      name keeps. */
  lemma StoredNameKeepsExtension(contentType: string, size: nat, uid: nat, stamp: string, filename: string)
    requires CheckUpload(contentType, size).Pass?
    ensures var r := StoredName(contentType, size, uid, stamp, filename);
      var k := |Decimal(uid)| + 1 + |stamp| + 1;
      && Extension(r.value) == Extension(filename)
      && r.value[..|Decimal(uid)| + 1] == Decimal(uid) + "_"
      && |r.value| == k + |Extension(filename)|
      && r.value[..k] == Decimal(uid) + "_" + stamp + "."
      && r.value[k..] == Extension(filename)
  {
    var head := Decimal(uid) + "_";
    ExtensionAfterDot(head + stamp, Extension(filename));
    PrefixKept(head, stamp, Extension(filename));
  }
}

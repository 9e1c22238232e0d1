/**
 * The upload allow-list: a file name is accepted when the text after its
 * last '.' is, lower-cased, one of five image extensions (project.py:16-19).
 */
module FileTypes {
  import opened Wrappers

  /** ALLOWED_EXT */
  const AllowedExt: set<string> := {"png", "jpg", "jpeg", "bmp", "gif"}

  /** Every allowed extension is non-empty, dot-free and already lower-case, so `"x." + e` is allowed. */
  lemma AllowedExtWellFormed()
    ensures |AllowedExt| == 5
    ensures forall e :: e in AllowedExt ==> |e| > 0 && '.' !in e && Lower(e) == e
  {
    assert AllowedExt == {"png", "jpg", "jpeg", "bmp", "gif"};
    assert "png" != "jpg" && "jpg" != "jpeg" && "jpeg" != "bmp" && "bmp" != "gif";
    assert Lower("png") == "png" && Lower("jpg") == "jpg" && Lower("jpeg") == "jpeg";
    assert Lower("bmp") == "bmp" && Lower("gif") == "gif";
  }

  /** Lower-cases one character (ASCII letters only). */
  function LowerChar(c: char): (d: char)
    ensures 'A' <= c <= 'Z' ==> d as int == c as int + 32
    ensures !('A' <= c <= 'Z') ==> d == c
    ensures 'A' <= d <= 'Z' ==> false
  {
    if 'A' <= c <= 'Z' then (c as int + 32) as char else c
  }

  /** Upper-cases one character (ASCII letters only). */
  function UpperChar(c: char): (d: char)
    ensures LowerChar(d) == LowerChar(c)
  {
    if 'a' <= c <= 'z' then (c as int - 32) as char else c
  }

  /** `str.lower()` on the characters that matter for the allow-list. */
  function Lower(s: string): (t: string)
    ensures |t| == |s|
    ensures forall i :: 0 <= i < |s| ==> t[i] == LowerChar(s[i])
  {
    seq(|s|, i requires 0 <= i < |s| => LowerChar(s[i]))
  }

  /** `str.upper()` on ASCII letters. */
  function Upper(s: string): (t: string)
    ensures |t| == |s|
    ensures forall i :: 0 <= i < |s| ==> t[i] == UpperChar(s[i])
  {
    seq(|s|, i requires 0 <= i < |s| => UpperChar(s[i]))
  }

  /** True when `s` and `t` differ at most in the letter case of their characters. */
  predicate SameIgnoringCase(s: string, t: string) {
    |s| == |t| && forall i :: 0 <= i < |s| ==> LowerChar(s[i]) == LowerChar(t[i])
  }

  /** Index of the last '.' in `s`, if any: the split point of `s.rsplit('.', 1)`. */
  function LastDot(s: string): (k: Option<nat>)
    ensures k.None? <==> '.' !in s
    ensures k.Some? ==> k.value < |s| && s[k.value] == '.' && '.' !in s[k.value + 1..]
  {
    if |s| == 0 then None
    else if s[|s| - 1] == '.' then Some(|s| - 1)
    else
      var k := LastDot(s[..|s| - 1]);
      assert s == s[..|s| - 1] + [s[|s| - 1]];
      k
  }

  /** No '.' in `s[k + 1..]` means no '.' at any index after `k`. */
  lemma NoDotAfter(s: string, k: nat)
    requires k < |s| && '.' !in s[k + 1..]
    ensures forall i :: k < i < |s| ==> s[i] != '.'
  {
    forall i | k < i < |s| ensures s[i] != '.' {
      assert s[i] == s[k + 1..][i - k - 1];
    }
  }

  /** The converse of `NoDotAfter`. */
  lemma NoDotFrom(s: string, k: nat)
    requires k < |s| && forall i :: k < i < |s| ==> s[i] != '.'
    ensures '.' !in s[k + 1..]
  {
    var rest := s[k + 1..];
    forall j | 0 <= j < |rest| ensures rest[j] != '.' {
      assert rest[j] == s[k + 1 + j];
    }
  }

  /** A '.' with no '.' after it is the one `LastDot` finds. */
  lemma LastDotUnique(s: string, k: nat)
    requires k < |s| && s[k] == '.' && '.' !in s[k + 1..]
    ensures LastDot(s) == Some(k)
  {
    NoDotAfter(s, k);
    NoDotAfter(s, LastDot(s).value);
  }

  /** `filename.rsplit('.', 1)[1]` when the name contains a dot. */
  function Extension(filename: string): (e: Option<string>)
    ensures e.None? <==> '.' !in filename
    ensures e.Some? ==> '.' !in e.value && exists k :: 0 <= k < |filename| && filename[k] == '.' && filename[k + 1..] == e.value
  {
    match LastDot(filename)
    case None => None
    case Some(k) => Some(filename[k + 1..])
  }

  /** `k` is the position of a '.' with no '.' after it. */
  predicate IsLastDot(f: string, k: int) {
    0 <= k < |f| && f[k] == '.' && '.' !in f[k + 1..]
  }

  /** `allowed_file`: a dot, and the lower-cased text after the last dot is allowed. */
  function AllowedFile(filename: string): (ok: bool)
    ensures ok <==> exists k :: IsLastDot(filename, k) && Lower(filename[k + 1..]) in AllowedExt
  {
    var ok := '.' in filename && Lower(Extension(filename).value) in AllowedExt;
    assert ok ==> IsLastDot(filename, LastDot(filename).value);
    assert !ok ==> (forall j :: IsLastDot(filename, j) ==> Lower(filename[j + 1..]) !in AllowedExt) by {
      forall j | IsLastDot(filename, j) {
        LastDotUnique(filename, j);
      }
    }
    ok
  }

  /** Letter case never moves a dot. */
  lemma DotsAgree(s: string, t: string)
    requires SameIgnoringCase(s, t)
    ensures forall i :: 0 <= i < |s| ==> (s[i] == '.' <==> t[i] == '.')
  {
    forall i | 0 <= i < |s| ensures s[i] == '.' <==> t[i] == '.' {
      assert LowerChar(s[i]) == LowerChar(t[i]);
    }
  }

  /** Equal up to case gives equal lower-cased strings. */
  lemma LowerAgrees(s: string, t: string)
    requires SameIgnoringCase(s, t)
    ensures Lower(s) == Lower(t)
  {
  }

  /** Case-equality carries over to suffixes. */
  lemma SameIgnoringCaseSuffix(s: string, t: string, k: nat)
    requires SameIgnoringCase(s, t) && k <= |s|
    ensures SameIgnoringCase(s[k..], t[k..])
  {
    var s', t' := s[k..], t[k..];
    forall j | 0 <= j < |s'| ensures LowerChar(s'[j]) == LowerChar(t'[j]) {
      assert s'[j] == s[k + j] && t'[j] == t[k + j];
    }
  }

  /** Once the last dot is known, only the lower-cased suffix after it matters. */
  lemma AllowedFileAt(f: string, k: nat)
    requires LastDot(f) == Some(k)
    ensures AllowedFile(f) == (Lower(f[k + 1..]) in AllowedExt)
  {
    assert Extension(f) == Some(f[k + 1..]);
  }

  /** Changing the letter case anywhere in a file name never changes whether it is allowed. */
  lemma AllowedFileIgnoresCase(s: string, t: string)
    requires SameIgnoringCase(s, t)
    ensures AllowedFile(s) == AllowedFile(t)
  {
    DotsAgree(s, t);
    match LastDot(s)
    case None =>
      assert '.' !in t by {
        forall i | 0 <= i < |t| ensures t[i] != '.' {
          assert s[i] != '.';
        }
      }
    case Some(k) =>
      NoDotAfter(s, k);
      NoDotFrom(t, k);
      LastDotUnique(t, k);
      SameIgnoringCaseSuffix(s, t, k + 1);
      LowerAgrees(s[k + 1..], t[k + 1..]);
      AllowedFileAt(s, k);
      AllowedFileAt(t, k);
  }

  /** Corollary of `AllowedFileIgnoresCase`: upper-casing a name leaves the verdict unchanged. */
  lemma AllowedFileUpper(s: string)
    ensures AllowedFile(Upper(s)) == AllowedFile(s)
  {
    AllowedFileIgnoresCase(Upper(s), s);
  }

  /** The last extension decides: `x.tar.PNG` is an image. */
  lemma AllowedFileLastExtension()
    ensures AllowedFile("x.tar.PNG")
  {
    LastDotUnique("x.tar.PNG", 5);
    assert "x.tar.PNG"[6..] == "PNG";
    assert Lower("PNG") == "png";
  }

  /** A name that is only a dot and an extension is accepted. */
  lemma AllowedFileDotOnly()
    ensures AllowedFile(".png")
  {
    LastDotUnique(".png", 0);
    assert ".png"[1..] == "png";
    assert Lower("png") == "png";
  }

  /** Names without a dot, with nothing after the last dot, or with another extension are refused. */
  lemma AllowedFileRejections()
    ensures !AllowedFile("png")
    ensures !AllowedFile("x.")
    ensures !AllowedFile("payload.exe")
    ensures !AllowedFile("")
  {
    assert "png"[0] != '.' && "png"[1] != '.' && "png"[2] != '.';
    LastDotUnique("x.", 1);
    assert "x."[2..] == "";
    LastDotUnique("payload.exe", 7);
    assert "payload.exe"[8..] == "exe";
    assert Lower("exe") == "exe";
  }
}

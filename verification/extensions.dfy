/** The file-type check of `load_image`: the extension of the name, as
    `os.path.splitext` splits it, must be one of the three recognised ones.
    The comparison is exact, so `.PNG` is not accepted. */
module Extensions {

  const VALID_EXTS: set<string> := {".png", ".jpg", ".jpeg"}

  predicate AllDots(s: string) {
    forall i | 0 <= i < |s| :: s[i] == '.'
  }

  /** Index of the last '.' in `s`, or -1 when there is none. */
  function LastDot(s: string): (i: int)
    ensures -1 <= i < |s|
  {
    if s == [] then -1
    else if s[|s| - 1] == '.' then |s| - 1
    else LastDot(s[..|s| - 1])
  }

  /** LastDot finds a dot, and no dot follows it. */
  lemma {:induction false} LastDotIsLast(s: string)
    ensures var i := LastDot(s);
            && (i >= 0 ==> s[i] == '.')
            && forall j | i < j < |s| :: s[j] != '.'
    decreases |s|
  {
    if s != [] && s[|s| - 1] != '.' {
      LastDotIsLast(s[..|s| - 1]);
      assert forall j | 0 <= j < |s| - 1 :: s[..|s| - 1][j] == s[j];
    }
  }

  /** The extension of a file name without directory separators: from the last
      '.' to the end, provided some character before that dot is not a dot
      (so a hidden file such as ".png" has no extension); otherwise empty. */
  function Extension(name: string): (ext: string)
    ensures |ext| <= |name| && ext == name[|name| - |ext|..]
  {
    var d := LastDot(name);
    if d >= 0 && !AllDots(name[..d]) then name[d..] else ""
  }

  /** A non-empty extension is one dot followed by no other dot, after a
      character that is not a dot; the extension is empty exactly when no dot
      follows a non-dot character. */
  lemma ExtensionShape(name: string)
    ensures var ext := Extension(name);
            && (ext != "" ==> ext[0] == '.' && '.' !in ext[1..] && !AllDots(name[..|name| - |ext|]))
            && (ext == "" ==> forall i, j | 0 <= j < i < |name| && name[i] == '.' :: name[j] == '.')
  {
    var d := LastDot(name);
    LastDotIsLast(name);
    if d >= 0 && !AllDots(name[..d]) {
      assert forall k | 0 <= k < |name[d..]| - 1 :: name[d..][1..][k] == name[d + 1 + k];
    } else {
      assert forall i, j | 0 <= j < i < |name| && name[i] == '.' :: j < d && name[..d][j] == name[j];
    }
  }

  /** `name` ends in `e` and has a character other than '.' before it. */
  predicate EndsWithExt(name: string, e: string) {
    |e| <= |name| && name[|name| - |e|..] == e && !AllDots(name[..|name| - |e|])
  }

  /** A suffix that starts at a dot, holds no other dot and follows a
      non-dot character is the extension. */
  lemma ExtensionOfSuffix(name: string, e: string)
    requires |e| > 0 && e[0] == '.' && '.' !in e[1..]
    requires EndsWithExt(name, e)
    ensures Extension(name) == e
  {
    var ext := Extension(name);
    ExtensionShape(name);
    var p := |name| - |e|;
    assert name[p] == e[0];
    assert forall j | p < j < |name| :: name[j] == e[1..][j - p - 1];
    if ext != "" {
      var q := |name| - |ext|;
      assert name[q] == ext[0];
      assert forall j | q < j < |name| :: name[j] == ext[1..][j - q - 1];
    }
  }

  /** The check `os.path.splitext(filepath)[1] in VALID_EXTS`. */
  predicate HasValidExtension(name: string) {
    Extension(name) in VALID_EXTS
  }

  /** A name passes the check exactly when it ends in ".png", ".jpg" or
      ".jpeg" after some character other than a dot; letter case counts. */
  lemma ValidExtensionIffSuffix(name: string)
    ensures HasValidExtension(name)
        <==> EndsWithExt(name, ".png") || EndsWithExt(name, ".jpg") || EndsWithExt(name, ".jpeg")
  {
    var ext := Extension(name);
    ExtensionShape(name);
    if ext in VALID_EXTS {
      assert ext == ".png" || ext == ".jpg" || ext == ".jpeg";
      assert EndsWithExt(name, ext);
    } else if EndsWithExt(name, ".png") {
      ExtensionOfSuffix(name, ".png");
    } else if EndsWithExt(name, ".jpg") {
      ExtensionOfSuffix(name, ".jpg");
    } else if EndsWithExt(name, ".jpeg") {
      ExtensionOfSuffix(name, ".jpeg");
    }
  }
}

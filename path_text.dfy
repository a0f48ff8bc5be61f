/** The two string operations the submission gate applies to an uploaded file
    name: .NET's Path.GetExtension (for a Windows host, where both '/' and '\'
    separate directories) and ToLower, restricted to ASCII letters. */
module PathText {

  predicate IsDirectorySeparator(ch: char) {
    ch == '/' || ch == '\\'
  }

  /** `k` is where the extension of `name` starts: the last '.' of the name,
      not its final character, with no directory separator after it. */
  ghost predicate ExtensionStart(name: string, k: int) {
    && 0 <= k < |name| - 1
    && name[k] == '.'
    && forall m :: k < m < |name| ==> name[m] != '.' && !IsDirectorySeparator(name[m])
  }

  /** The extension of `name`, including its leading '.', or "" when there is none.
      A name ending in '.' has no extension, and a '.' before the last directory
      separator does not count. */
  function Extension(name: string): (ext: string)
    ensures ext != [] <==> exists k :: ExtensionStart(name, k)
    ensures forall k :: ExtensionStart(name, k) ==> ext == name[k..]
  {
    ExtensionBefore(name, |name|)
  }

  /** Scans `name` backwards from position `i`; everything at or after `i` is
      known to hold neither a '.' nor a directory separator. */
  function ExtensionBefore(name: string, i: nat): (ext: string)
    requires i <= |name|
    requires forall m :: i <= m < |name| ==> name[m] != '.' && !IsDirectorySeparator(name[m])
    ensures ext != [] <==> exists k :: k < i && ExtensionStart(name, k)
    ensures forall k :: k < i && ExtensionStart(name, k) ==> ext == name[k..]
    decreases i
  {
    if i == 0 then []
    else if name[i - 1] == '.' then
      if i == |name| then
        assert forall k :: k < i ==> !ExtensionStart(name, k);
        []
      else
        assert ExtensionStart(name, i - 1);
        name[i - 1..]
    else if IsDirectorySeparator(name[i - 1]) then
      assert forall k :: k < i ==> !ExtensionStart(name, k);
      []
    else
      assert !ExtensionStart(name, i - 1);
      ExtensionBefore(name, i - 1)
  }

  function LowerChar(ch: char): (r: char)
    ensures 'A' <= ch <= 'Z' ==> 'a' <= r <= 'z' && r as int == ch as int + 32
    ensures !('A' <= ch <= 'Z') ==> r == ch
  {
    if 'A' <= ch <= 'Z' then (ch - 'A' + 'a') as char else ch
  }

  /** ToLower on ASCII letters; every other character is kept. */
  function LowerAscii(s: string): (r: string)
    ensures |r| == |s|
    ensures forall i :: 0 <= i < |s| ==> r[i] == LowerChar(s[i])
    ensures forall i :: 0 <= i < |r| ==> !('A' <= r[i] <= 'Z')
  {
    seq(|s|, i requires 0 <= i < |s| => LowerChar(s[i]))
  }

  /** Lower-casing twice is lower-casing once. */
  lemma LowerAsciiIdempotent(s: string)
    ensures LowerAscii(LowerAscii(s)) == LowerAscii(s)
  {
  }

  /** Lower-casing works character by character, so it distributes over concatenation. */
  lemma LowerAsciiConcat(a: string, b: string)
    ensures LowerAscii(a + b) == LowerAscii(a) + LowerAscii(b)
  {
  }

  /** Lower-casing leaves '.' and directory separators where they are, so the
      extension of the lower-cased name is the lower-cased extension. */
  lemma ExtensionOfLower(name: string)
    ensures Extension(LowerAscii(name)) == LowerAscii(Extension(name))
  {
    var lower := LowerAscii(name);
    forall k ensures ExtensionStart(lower, k) <==> ExtensionStart(name, k) {
      if 0 <= k < |name| - 1 {
        assert forall m :: k <= m < |name| ==>
          (lower[m] == '.' <==> name[m] == '.') &&
          (IsDirectorySeparator(lower[m]) <==> IsDirectorySeparator(name[m]));
      }
    }
    if k :| ExtensionStart(name, k) {
      assert ExtensionStart(lower, k);
      assert lower[k..] == LowerAscii(name[k..]);
    } else {
      assert Extension(name) == [];
      assert forall k :: !ExtensionStart(lower, k);
    }
  }

  /** A name built as stem + "." + suffix, where the suffix is non-empty and
      holds no '.' and no separator, has extension "." + suffix. */
  lemma ExtensionOfDotted(stem: string, suffix: string)
    requires suffix != []
    requires forall i :: 0 <= i < |suffix| ==> suffix[i] != '.' && !IsDirectorySeparator(suffix[i])
    ensures Extension(stem + "." + suffix) == "." + suffix
  {
    var name := stem + "." + suffix;
    assert ExtensionStart(name, |stem|);
    assert name[|stem|..] == "." + suffix;
  }

  /** A name whose last character is '.' has no extension. */
  lemma NoExtensionAfterFinalDot(stem: string)
    ensures Extension(stem + ".") == ""
  {
    var name := stem + ".";
    assert name[|name| - 1] == '.';
    assert forall k :: !ExtensionStart(name, k);
  }
}

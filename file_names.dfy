/** How the download handler names the converted file: the source name cut at
    its last '.', then '.' and the selected format. The two string primitives
    it relies on are modelled with their JavaScript semantics. */
module FileNames {

  /** JavaScript's `s.lastIndexOf(c)` for a one-character search string: the
      index of the last occurrence of `c`, or -1 when there is none. */
  function LastIndexOf(s: string, c: char): (r: int)
    ensures -1 <= r < |s|
    ensures r == -1 <==> c !in s
    ensures 0 <= r ==> s[r] == c && c !in s[r + 1..]
    decreases |s|
  {
    if s == [] then -1
    else if s[|s| - 1] == c then |s| - 1
    else
      assert s == s[..|s| - 1] + [s[|s| - 1]];
      LastIndexOf(s[..|s| - 1], c)
  }

  /** Clamps a `substring` argument into `0..len`. */
  function Clamp(i: int, len: nat): nat
  {
    if i < 0 then 0 else if i > len then len else i
  }

  /** JavaScript's `s.substring(start, end)`: both arguments are clamped into
      `0..|s|`, and swapped when the first exceeds the second. */
  function Substring(s: string, start: int, end: int): (r: string)
    ensures 0 <= start <= end <= |s| ==> r == s[start..end]
    ensures end <= 0 && start <= 0 ==> r == ""
    ensures start <= 0 ==> r <= s
  {
    var a, b := Clamp(start, |s|), Clamp(end, |s|);
    if a <= b then s[a..b] else s[b..a]
  }

  /** The name given to the downloaded file. */
  function DownloadName(name: string, format: string): (r: string)
    ensures |r| > |format|
    ensures r[..|r| - |format| - 1] <= name
    ensures r[|r| - |format| - 1..] == "." + format
  {
    var base := Substring(name, 0, LastIndexOf(name, '.'));
    var r := base + "." + format;
    assert r[..|base|] == base && r[|base|..] == "." + format;
    r
  }

  /** A name with an extension keeps everything before its last '.', and the
      selected format replaces the extension. */
  lemma {:induction false} DownloadNameReplacesExtension(base: string, ext: string, format: string)
    requires '.' !in ext
    ensures DownloadName(base + "." + ext, format) == base + "." + format
  {
    var name := base + "." + ext;
    assert name[|base| + 1..] == ext;
    assert name[..|base|] == base;
    var k := LastIndexOf(name, '.');
    assert name[|base|] == '.';
    assert k == |base|;
  }

  /** A name without any '.' has an empty base: the result is just '.' and the format. */
  lemma DownloadNameWithoutDot(name: string, format: string)
    requires '.' !in name
    ensures DownloadName(name, format) == "." + format
  {
  }

  /** Every name is covered by the two lemmas above: it either has no '.' or
      splits at its last '.' into a base and a dot-free extension. */
  lemma {:induction false} NameSplitsAtLastDot(name: string)
    requires '.' in name
    ensures exists base: string, ext: string ::
      name == base + "." + ext && '.' !in ext
  {
    var k := LastIndexOf(name, '.');
    var base, ext := name[..k], name[k + 1..];
    assert name == base + "." + ext;
  }

  /** Renaming twice is renaming once with the second format, as long as the
      first format adds no '.' of its own. */
  lemma {:induction false} DownloadNameRenameTwice(name: string, f: string, g: string)
    requires '.' !in f
    ensures DownloadName(DownloadName(name, f), g) == DownloadName(name, g)
  {
    var base := Substring(name, 0, LastIndexOf(name, '.'));
    DownloadNameReplacesExtension(base, f, g);
  }
}

/** The file-name helper of the upload handler: `get_file_extension`, built on
    Python's `os.path.splitext` (its POSIX variant, where `/` separates directories). */
module FileExtension {
  import opened Options
  import opened Strings

  /** The index of the last `c` in `s`, or -1 when `c` does not occur (Python's `str.rfind`). */
  function LastIndexOf(s: string, c: char): (r: int)
    ensures -1 <= r < |s|
    ensures r >= 0 ==> s[r] == c
    ensures forall j :: r < j < |s| ==> s[j] != c
  {
    if s == [] then -1
    else if s[|s| - 1] == c then |s| - 1
    else LastIndexOf(s[..|s| - 1], c)
  }

  /** Every character of `s` from index `lo` up to, not including, `hi` is a dot. */
  predicate AllDotsBetween(s: string, lo: int, hi: int) {
    forall i :: lo <= i < hi && 0 <= i < |s| ==> s[i] == '.'
  }

  /** `os.path.splitext(p)`: the extension runs from the last dot of the last path
      component to the end, unless that dot is preceded only by dots in the component
      (a hidden file such as `.bashrc` has no extension). */
  function SplitExt(p: string): (r: (string, string))
    ensures r.0 + r.1 == p
    ensures r.1 != [] ==> 0 <= LastIndexOf(p, '.') && r.1 == p[LastIndexOf(p, '.')..] && r.1[0] == '.'
    ensures forall i :: 0 <= i < |r.1| ==> r.1[i] != '/'
    ensures forall i :: 1 <= i < |r.1| ==> r.1[i] != '.'
  {
    var sepIndex := LastIndexOf(p, '/');
    var dotIndex := LastIndexOf(p, '.');
    if dotIndex > sepIndex && !AllDotsBetween(p, sepIndex + 1, dotIndex) then
      (p[..dotIndex], p[dotIndex..])
    else (p, [])
  }

  /** A file name has an extension exactly when its last component holds a dot
      with some character other than a dot before it. */
  lemma HasExtensionIff(p: string)
    ensures SplitExt(p).1 != [] <==>
      exists i, j :: LastIndexOf(p, '/') < i < j < |p| && p[i] != '.' && p[j] == '.'
  {
  }

  /** `get_file_extension(filename)`: the lower-cased extension, or None when there is none. */
  function GetFileExtension(filename: string): (r: Option<string>)
    ensures r.None? <==> SplitExt(filename).1 == []
    ensures r.Some? ==>
      var dotIndex := LastIndexOf(filename, '.');
      0 <= dotIndex && r.value == ToLower(filename[dotIndex..]) && IsLowerCase(r.value) && r.value[0] == '.'
  {
    var (_, extension) := SplitExt(filename);
    if extension != [] then Some(ToLower(extension)) else None
  }
}

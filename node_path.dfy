/** The `name` field of Node's `path.parse` (POSIX flavour) for a bare file
    name, that is, the file name with its extension removed. */
module NodePath {
  import opened JsText

  /** `path.parse(base).name`. The extension runs from the last `.` to the
      end; a name whose only dot is its first character (`.profile`) and the
      name `..` have no extension. */
  function ParsedName(base: string): (name: string)
    ensures name == base <==> '.' !in base || LastIndexOf(base, '.') == 0 || base == ".."
    ensures name != base ==>
      && 0 < |name| < |base|
      && base[..|name|] == name
      && base[|name|] == '.'
      && '.' !in base[|name| + 1..]
  {
    var dot := LastIndexOf(base, '.');
    if dot <= 0 || base == ".." then base else base[..dot]
  }

  /** A name followed by a dot and a dot-free extension loses exactly that extension. */
  lemma ParsedNameDropsExtension(stem: string, ext: string)
    requires stem != [] && '.' !in ext
    requires stem + "." + ext != ".."
    ensures ParsedName(stem + "." + ext) == stem
  {
    var base := stem + "." + ext;
    assert base[..|stem|] == stem;
    assert base[|stem| + 1..] == ext;
    LastIndexOfIsLast(base, '.', |stem|);
  }
}

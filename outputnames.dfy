/** The file names the script offers in its save dialogs: `os.path.basename` and
    `os.path.splitext` applied to a path, then a new ending put on the stem. */
module OutputNames {

  /** `os.path` is `posixpath` on Unix-like systems and `ntpath` on Windows. */
  datatype PathStyle = Posix | Windows

  /** The characters `os.path` treats as directory separators. */
  function Separators(style: PathStyle): set<char> {
    match style
    case Posix => {'/'}
    case Windows => {'/', '\\'}
  }

  const DOT: char := '.'
  const XLSX: string := ".xlsx"
  const NEW_XLSX: string := "_new.xlsx"

  /** The index of the last character of `s` that is in `cs`, or -1 when there is
      none (`str.rfind` over a set of characters). */
  function LastIndexIn(s: string, cs: set<char>): (i: int)
    ensures -1 <= i < |s|
    ensures i >= 0 ==> s[i] in cs
    ensures forall k | i < k < |s| :: s[k] !in cs
  {
    if s == [] then -1
    else if s[|s| - 1] in cs then |s| - 1
    else LastIndexIn(s[..|s| - 1], cs)
  }

  /** `os.path.basename`: what follows the last separator. On Windows a drive such
      as `C:` that is not followed by a separator is not part of the name either. */
  function Basename(style: PathStyle, path: string): (name: string)
    ensures |name| <= |path| && name == path[|path| - |name|..]
    ensures forall k | 0 <= k < |name| :: name[k] !in Separators(style)
  {
    var i := LastIndexIn(path, Separators(style));
    if i >= 0 then path[i + 1..]
    else if style == Windows && |path| >= 2 && path[1] == ':' then path[2..]
    else path
  }

  /** A name made only of dots (the empty name included). */
  predicate AllDots(s: string) {
    forall k | 0 <= k < |s| :: s[k] == DOT
  }

  /** `os.path.splitext(name)[0]` for a name without separators: the name up to its
      last dot, unless only dots come before that dot (so `.bashrc` and `..x` keep
      their whole name). */
  function Stem(name: string): (stem: string)
    ensures |stem| <= |name| && stem == name[..|stem|]
  {
    var d := LastIndexIn(name, {DOT});
    if d >= 0 && !AllDots(name[..d]) then name[..d] else name
  }

  /** Line 89: the output name first suggested, the input's stem with `.xlsx`. It is
      a bare file name ending in `.xlsx`, no longer than the input's name plus that
      ending. */
  function SuggestedName(style: PathStyle, inputPath: string): (name: string)
    ensures |XLSX| <= |name| <= |inputPath| + |XLSX| && name[|name| - |XLSX|..] == XLSX
    ensures forall k | 0 <= k < |name| :: name[k] !in Separators(style)
  {
    var stem := Stem(Basename(style, inputPath));
    assert forall k | 0 <= k < |stem| :: stem[k] == Basename(style, inputPath)[k];
    stem + XLSX
  }

  /** Line 34: the name suggested when the output is locked, the output's stem with
      `_new.xlsx`. It is a bare file name ending in `_new.xlsx`. */
  function AlternativeName(style: PathStyle, outputPath: string): (name: string)
    ensures |NEW_XLSX| <= |name| <= |outputPath| + |NEW_XLSX| && name[|name| - |NEW_XLSX|..] == NEW_XLSX
    ensures forall k | 0 <= k < |name| :: name[k] !in Separators(style)
  {
    var stem := Stem(Basename(style, outputPath));
    assert forall k | 0 <= k < |stem| :: stem[k] == Basename(style, outputPath)[k];
    stem + NEW_XLSX
  }

  /** The name is the part of the path after its last separator. */
  lemma {:induction false} BasenameAfterDirectory(style: PathStyle, dir: string, name: string)
    requires dir != [] && dir[|dir| - 1] in Separators(style)
    requires forall k | 0 <= k < |name| :: name[k] !in Separators(style)
    ensures Basename(style, dir + name) == name
  {
    var path := dir + name;
    var i := LastIndexIn(path, Separators(style));
    assert path[|dir| - 1] in Separators(style);
    assert forall k | |dir| <= k < |path| :: path[k] == name[k - |dir|];
    assert i == |dir| - 1;
    assert path[i + 1..] == name;
  }

  /** A bare name without separators is its own basename, unless on Windows its
      second character is a colon, which makes its first two characters a drive. */
  lemma BasenameOfBareName(style: PathStyle, name: string)
    requires forall k | 0 <= k < |name| :: name[k] !in Separators(style)
    requires style == Windows ==> |name| < 2 || name[1] != ':'
    ensures Basename(style, name) == name
  {
  }

  /** Windows: a drive with no separator after it is dropped, `C:data.csv` giving
      `data.csv`. */
  lemma DriveRelativeName(drive: char, name: string)
    requires drive !in Separators(Windows)
    requires forall k | 0 <= k < |name| :: name[k] !in Separators(Windows)
    ensures Basename(Windows, [drive, ':'] + name) == name
  {
    var path := [drive, ':'] + name;
    assert forall k | 0 <= k < |path| :: path[k] !in Separators(Windows) by {
      forall k | 0 <= k < |path| ensures path[k] !in Separators(Windows) {
        if k >= 2 {
          assert path[k] == name[k - 2];
        }
      }
    }
    assert path[2..] == name;
  }

  /** `Stem` cuts at the last dot when a character other than a dot comes before it,
      and keeps the whole name otherwise. */
  lemma StemCutsAtLastDot(name: string)
    ensures var stem := Stem(name);
      && (stem != name ==>
            name[|stem|] == DOT && !AllDots(stem) && forall k | |stem| < k < |name| :: name[k] != DOT)
      && (stem != name <==> exists i, j | 0 <= j < i < |name| :: name[i] == DOT && name[j] != DOT)
  {
    var d := LastIndexIn(name, {DOT});
    if d >= 0 && !AllDots(name[..d]) {
      var j :| 0 <= j < d && name[..d][j] != DOT;
      assert name[d] == DOT && name[j] != DOT;
    }
    forall i, j | 0 <= j < i < |name| && name[i] == DOT && name[j] != DOT
      ensures d >= 0 && !AllDots(name[..d])
    {
      assert d >= i;
      assert name[..d][j] != DOT;
    }
  }

  /** Splitting off an extension undoes adding one: a stem that is not only dots,
      followed by a dot and an extension without dots, gives back the stem. */
  lemma StemDropsExtension(stem: string, ext: string)
    requires !AllDots(stem)
    requires forall k | 0 <= k < |ext| :: ext[k] != DOT
    ensures Stem(stem + [DOT] + ext) == stem
  {
    var name := stem + [DOT] + ext;
    var d := LastIndexIn(name, {DOT});
    assert name[|stem|] == DOT;
    assert forall k | |stem| < k < |name| :: name[k] == ext[k - |stem| - 1];
    assert d == |stem|;
    assert name[..d] == stem;
  }

  /** A name without a dot after its first non-dot character has no extension. */
  lemma StemOfNameWithoutExtension(name: string)
    requires forall i, j | 0 <= j < i < |name| :: name[j] != DOT ==> name[i] != DOT
    ensures Stem(name) == name
  {
    StemCutsAtLastDot(name);
  }

  /** The stem of `dir/stem.ext` is `stem`. */
  lemma StemOfPath(style: PathStyle, dir: string, stem: string, ext: string)
    requires dir != [] && dir[|dir| - 1] in Separators(style)
    requires !AllDots(stem)
    requires forall k | 0 <= k < |stem| :: stem[k] !in Separators(style)
    requires forall k | 0 <= k < |ext| :: ext[k] != DOT && ext[k] !in Separators(style)
    ensures Stem(Basename(style, dir + stem + [DOT] + ext)) == stem
  {
    var name := stem + [DOT] + ext;
    assert forall k | 0 <= k < |name| :: name[k] !in Separators(style) by {
      forall k | 0 <= k < |name| ensures name[k] !in Separators(style) {
        if k > |stem| {
          assert name[k] == ext[k - |stem| - 1];
        }
      }
    }
    assert dir + stem + [DOT] + ext == dir + name;
    BasenameAfterDirectory(style, dir, name);
    StemDropsExtension(stem, ext);
  }

  /** The first suggestion replaces the extension of the input's file name by
      `.xlsx` and drops the directory: `dir/data.csv` gives `data.xlsx`. */
  lemma SuggestionReplacesExtension(style: PathStyle, dir: string, stem: string, ext: string)
    requires dir != [] && dir[|dir| - 1] in Separators(style)
    requires !AllDots(stem)
    requires forall k | 0 <= k < |stem| :: stem[k] !in Separators(style)
    requires forall k | 0 <= k < |ext| :: ext[k] != DOT && ext[k] !in Separators(style)
    ensures SuggestedName(style, dir + stem + [DOT] + ext) == stem + XLSX
  {
    StemOfPath(style, dir, stem, ext);
  }

  /** The alternative name keeps the stem of the locked output and ends in
      `_new.xlsx`: `out/report.xlsx` gives `report_new.xlsx`. */
  lemma AlternativeKeepsStem(style: PathStyle, dir: string, stem: string, ext: string)
    requires dir != [] && dir[|dir| - 1] in Separators(style)
    requires !AllDots(stem)
    requires forall k | 0 <= k < |stem| :: stem[k] !in Separators(style)
    requires forall k | 0 <= k < |ext| :: ext[k] != DOT && ext[k] !in Separators(style)
    ensures AlternativeName(style, dir + stem + [DOT] + ext) == stem + NEW_XLSX
  {
    StemOfPath(style, dir, stem, ext);
  }
}

/**
 * Where the watermarked image is written: the source path split into stem
 * and extension as `os.path.splitext` does, and a new name built from the
 * stem, a "_watermarked" marker and an extension chosen from the source's.
 */
module SavePath {

  import Text

  /** Path conventions: POSIX separates with '/', Windows with '\' or '/'. */
  datatype Platform = Posix | Windows

  predicate IsSep(platform: Platform, c: char)
  {
    c == '/' || (platform == Windows && c == '\\')
  }

  /** `s.rfind('.')`: the index of the last dot, or -1. */
  function LastDot(s: string): (i: int)
    ensures -1 <= i < |s|
    ensures i >= 0 ==> s[i] == '.'
    ensures forall j :: i < j < |s| ==> s[j] != '.'
    decreases |s|
  {
    if s == [] then -1
    else if s[|s| - 1] == '.' then |s| - 1
    else LastDot(s[..|s| - 1])
  }

  /** The index of the last path separator, or -1. */
  function LastSep(platform: Platform, s: string): (i: int)
    ensures -1 <= i < |s|
    ensures i >= 0 ==> IsSep(platform, s[i])
    ensures forall j :: i < j < |s| ==> !IsSep(platform, s[j])
    decreases |s|
  {
    if s == [] then -1
    else if IsSep(platform, s[|s| - 1]) then |s| - 1
    else LastSep(platform, s[..|s| - 1])
  }

  /**
   * `os.path.splitext`: the extension starts at the last dot of the final
   * path component, provided something other than dots precedes that dot
   * within the component (so ".bashrc" has none).
   */
  function SplitExt(platform: Platform, path: string): (parts: (string, string))
    ensures parts.0 + parts.1 == path
    ensures parts.1 == [] ||
      (parts.1[0] == '.' &&
       forall i :: 1 <= i < |parts.1| ==> parts.1[i] != '.' && !IsSep(platform, parts.1[i]))
    // an extension is split off only after something other than dots in the final component
    ensures parts.1 != [] ==> exists j :: LastSep(platform, path) < j < |parts.0| && path[j] != '.'
    // nothing is split off only when every dot of the final component has only dots before it
    ensures parts.1 == [] ==>
      forall d, j :: LastSep(platform, path) < j < d < |path| && path[d] == '.' ==> path[j] == '.'
  {
    var sepIndex := LastSep(platform, path);
    var dotIndex := LastDot(path);
    if dotIndex > sepIndex && exists j :: sepIndex < j < dotIndex && path[j] != '.' then
      (path[..dotIndex], path[dotIndex..])
    else
      (path, [])
  }

  /** The extensions, compared lower-cased, whose images are written as JPEG. */
  const JpegFamily: set<string> := {".heic", ".heif", ".jpg", ".jpeg", ".gif"}

  datatype Format = Jpeg | Png

  /** Where and in which format the watermarked image is saved. */
  datatype SavePlan = SavePlan(path: string, format: Format)

  const Marker: string := "_watermarked"

  /** The extension written for each format. */
  function FormatExtension(format: Format): string
  {
    match format
    case Jpeg => ".jpg"
    case Png => ".png"
  }

  /**
   * The save policy: JPEG-family sources give `stem_watermarked.jpg` in JPEG,
   * everything else `stem_watermarked.png` in PNG; the marker goes before the
   * extension.
   */
  function PlanSave(platform: Platform, source: string): (plan: SavePlan)
    ensures var (stem, ext) := SplitExt(platform, source);
      (plan.format == Jpeg <==> Text.Lower(ext) in JpegFamily) &&
      plan.path == stem + Marker + FormatExtension(plan.format)
  {
    var (stem, ext) := SplitExt(platform, source);
    if Text.Lower(ext) in JpegFamily then SavePlan(stem + Marker + ".jpg", Jpeg)
    else SavePlan(stem + Marker + ".png", Png)
  }

  /** The source file is never the destination. */
  lemma SaveNeverOverwrites(platform: Platform, source: string)
    ensures PlanSave(platform, source).path != source
  {
    // after the stem the output continues with '_', the source with '.' or nothing
  }

  /** The properties of LastDot's contract single out its result. */
  lemma LastDotIs(s: string, i: int)
    requires 0 <= i < |s| && s[i] == '.'
    requires forall j :: i < j < |s| ==> s[j] != '.'
    ensures LastDot(s) == i
  {
  }

  /**
   * A name that ends in something other than a dot or a separator, followed
   * by a dot and an extension free of both, splits at that dot.
   */
  lemma SplitExtAt(platform: Platform, base: string, ext: string)
    requires |base| > 0 && base[|base| - 1] != '.' && !IsSep(platform, base[|base| - 1])
    requires |ext| > 0 && ext[0] == '.'
    requires forall i :: 1 <= i < |ext| ==> ext[i] != '.' && !IsSep(platform, ext[i])
    ensures SplitExt(platform, base + ext) == (base, ext)
  {
    var path := base + ext;
    LastDotIs(path, |base|);
    var sepIndex := LastSep(platform, path);
    assert sepIndex < |base| - 1 by {
      assert forall j :: |base| - 1 <= j < |path| ==> !IsSep(platform, path[j]);
    }
    assert path[|base| - 1] != '.';
    assert path[..|base|] == base && path[|base|..] == ext;
  }

  /**
   * Splitting the saved path again gives the stem with the marker appended
   * and the extension of the chosen format: the file name says what format
   * it holds.
   */
  lemma SavedPathSplits(platform: Platform, source: string)
    ensures var plan := PlanSave(platform, source);
      SplitExt(platform, plan.path) ==
        (SplitExt(platform, source).0 + Marker, FormatExtension(plan.format))
  {
    var plan := PlanSave(platform, source);
    var base := SplitExt(platform, source).0 + Marker;
    assert base[|base| - 1] == 'd';
    SplitExtAt(platform, base, FormatExtension(plan.format));
    assert plan.path == base + FormatExtension(plan.format);
  }

  /** The JPEG and PNG names a stem is given. */
  lemma SuffixedNames(stem: string)
    ensures stem + Marker + FormatExtension(Jpeg) == stem + "_watermarked.jpg"
    ensures stem + Marker + FormatExtension(Png) == stem + "_watermarked.png"
  {
    assert Marker + ".jpg" == "_watermarked.jpg";
    assert Marker + ".png" == "_watermarked.png";
  }

  /** For a stem ending in an ordinary character, a HEIC photo becomes a JPEG next to it. */
  lemma HeicPlan(platform: Platform, stem: string)
    requires |stem| > 0 && stem[|stem| - 1] != '.' && !IsSep(platform, stem[|stem| - 1])
    ensures PlanSave(platform, stem + ".heic") == SavePlan(stem + "_watermarked.jpg", Jpeg)
  {
    SplitExtAt(platform, stem, ".heic");
    Text.LowerKeeps(".heic");
    assert Text.Lower(SplitExt(platform, stem + ".heic").1) in JpegFamily;
    SuffixedNames(stem);
  }

  /** For a stem ending in an ordinary character, a BMP photo becomes a PNG next to it. */
  lemma BmpPlan(platform: Platform, stem: string)
    requires |stem| > 0 && stem[|stem| - 1] != '.' && !IsSep(platform, stem[|stem| - 1])
    ensures PlanSave(platform, stem + ".bmp") == SavePlan(stem + "_watermarked.png", Png)
  {
    SplitExtAt(platform, stem, ".bmp");
    Text.LowerKeeps(".bmp");
    assert Text.Lower(SplitExt(platform, stem + ".bmp").1) !in JpegFamily;
    SuffixedNames(stem);
  }
}

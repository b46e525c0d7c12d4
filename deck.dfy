/**
 * The deck path of a note: the vault-relative file path turned into a
 * `::`-delimited deck name under the fixed root `obsidian_sync`.
 *
 * BuildDeckPath follows the chain of steps in DeckAutoUpdater.buildDeckPath:
 * normalise `\` to `/`, strip a trailing `.md` in any letter case, split on
 * `/` and drop empty pieces, drop the file name unless it is to be included,
 * and join the root and the remaining segments with `::`.
 */
module Deck {
  import opened Text

  /** The root token every deck path starts with. */
  const Root: string := "obsidian_sync"

  /** The delimiter between deck components. */
  const Delimiter: string := "::"

  /** The four spellings of the suffix that `/\.md$/i` matches. */
  const MdSpellings: set<string> := {".md", ".mD", ".Md", ".MD"}

  /** `s` ends with `.md` in some letter case. */
  predicate EndsWithMd(s: string)
  {
    |s| >= 3 && s[|s| - 3..] in MdSpellings
  }

  /** Step 1: every backslash becomes a forward slash. */
  function NormalizeSeparators(path: string): (r: string)
    ensures |r| == |path|
    ensures '\\' !in r
  {
    ReplaceChar(path, '\\', '/')
  }

  /** Step 2: remove one trailing `.md`, matched case-insensitively; anything else is kept. */
  function StripMdSuffix(s: string): (r: string)
    ensures r <= s
    ensures |r| == |s| || |r| == |s| - 3
  {
    var n := |s|;
    if n >= 3 && s[n - 3] == '.' && (s[n - 2] == 'm' || s[n - 2] == 'M') && (s[n - 1] == 'd' || s[n - 1] == 'D')
    then s[..n - 3]
    else s
  }

  /** Step 3: the non-empty `/`-separated segments of `s`. */
  function SplitPath(s: string): (parts: seq<string>)
    ensures forall i :: 0 <= i < |parts| ==> parts[i] != "" && '/' !in parts[i]
    ensures forall i, d :: 0 <= i < |parts| && d in parts[i] ==> d in s
  {
    var pieces := SplitOn(s, '/');
    var parts := FilterNonEmpty(pieces);
    assert forall i :: 0 <= i < |parts| ==> parts[i] in pieces;
    parts
  }

  /** Steps 1 to 3: the segments of a vault path (the `parts` of the source). */
  function PathSegments(path: string): (parts: seq<string>)
    ensures forall i :: 0 <= i < |parts| ==> parts[i] != "" && '/' !in parts[i] && '\\' !in parts[i]
  {
    var norm := NormalizeSeparators(path);
    var rel := StripMdSuffix(norm);
    assert forall d :: d in rel ==> d in norm;
    SplitPath(rel)
  }

  /** Step 4: all segments, or all but the last (the file name); `slice(0, -1)` of [] is []. */
  function EffectiveParts(parts: seq<string>, includeFilename: bool): (eff: seq<string>)
    ensures |eff| == (if includeFilename then |parts| else if |parts| == 0 then 0 else |parts| - 1)
    ensures eff == parts[..|eff|]
  {
    if includeFilename then parts
    else if |parts| == 0 then []
    else parts[..|parts| - 1]
  }

  /** The deck path of the file at `path`. */
  function BuildDeckPath(path: string, includeFilename: bool): (deck: string)
    ensures Root <= deck
  {
    var eff := EffectiveParts(PathSegments(path), includeFilename);
    if |eff| > 0 then Root + Delimiter + Join(eff, Delimiter) else Root
  }

  // ----- Stripping the suffix -----

  /**
   * The character test of StripMdSuffix agrees with EndsWithMd: exactly a
   * trailing `.md` in one of its four spellings is removed, nothing else.
   */
  lemma StripMdSuffixSpec(s: string)
    ensures EndsWithMd(s) ==> s == StripMdSuffix(s) + s[|s| - 3..]
    ensures !EndsWithMd(s) ==> StripMdSuffix(s) == s
    ensures StripMdSuffix(s) <= s
  {
    var n := |s|;
    if n >= 3 {
      var t := s[n - 3..];
      assert t == [s[n - 3], s[n - 2], s[n - 1]];
      assert s == s[..n - 3] + t;
    }
  }

  /** Exactly one suffix is removed: `b` followed by any spelling of `.md` strips to `b`. */
  lemma StripMdSuffixOnce(b: string, ext: string)
    requires ext in MdSpellings
    ensures StripMdSuffix(b + ext) == b
  {
  }

  /** The members of MdSpellings are the three-character strings `.`, `m` or `M`, `d` or `D`. */
  lemma MdSpellingChars(t: string)
    requires |t| == 3
    ensures t in MdSpellings <==> t[0] == '.' && (t[1] == 'm' || t[1] == 'M') && (t[2] == 'd' || t[2] == 'D')
  {
    if t[0] == '.' && (t[1] == 'm' || t[1] == 'M') && (t[2] == 'd' || t[2] == 'D') {
      assert t == [t[0], t[1], t[2]];
    }
  }

  /** A path ends with `.md` exactly when its normalised form does. */
  lemma NormalizePreservesMdSuffix(path: string)
    ensures EndsWithMd(NormalizeSeparators(path)) <==> EndsWithMd(path)
  {
    var r, n := NormalizeSeparators(path), |path|;
    if n >= 3 {
      var rt, pt := r[n - 3..], path[n - 3..];
      assert rt == [r[n - 3], r[n - 2], r[n - 1]];
      assert pt == [path[n - 3], path[n - 2], path[n - 1]];
      MdSpellingChars(rt);
      MdSpellingChars(pt);
    }
  }

  // ----- Segments -----

  /**
   * Splitting is idempotent on normalised paths: joining the segments with
   * `/`, normalising and splitting again gives the same segments.
   */
  lemma {:induction false} SplitPathIdempotent(path: string)
    ensures var parts := SplitPath(NormalizeSeparators(path));
      SplitPath(NormalizeSeparators(Join(parts, "/"))) == parts
  {
    var parts := SplitPath(NormalizeSeparators(path));
    var joined := Join(parts, "/");
    assert forall i :: 0 <= i < |parts| ==> '\\' !in parts[i];
    JoinAvoids(parts, "/", '\\');
    ReplaceCharAbsent(joined, '\\', '/');
    if |parts| == 0 {
      assert SplitOn("", '/') == [""];
      assert FilterNonEmpty([""]) == [];
    } else {
      SplitOnJoin(parts, '/');
      FilterNonEmptyKeepsAll(parts);
    }
  }

  /** A leading `/` adds no segment. */
  lemma LeadingSlashIgnored(s: string)
    ensures SplitPath("/" + s) == SplitPath(s)
  {
  }

  /** A trailing `/` adds no segment. */
  lemma TrailingSlashIgnored(s: string)
    ensures SplitPath(s + "/") == SplitPath(s)
  {
    assert s + "/" == s + ['/'] + "";
    SplitOnAppend(s, "", '/');
    FilterNonEmptyAppend(SplitOn(s, '/'), [""]);
  }

  /** A doubled `/` gives the same segments as a single one. */
  lemma DoubledSlashIgnored(a: string, b: string)
    ensures SplitPath(a + "//" + b) == SplitPath(a + "/" + b)
  {
    assert a + "//" + b == a + ['/'] + ("/" + b);
    assert a + "/" + b == a + ['/'] + b;
    SplitOnAppend(a, "/" + b, '/');
    SplitOnAppend(a, b, '/');
    assert "/" + b == "" + ['/'] + b;
    SplitOnAppend("", b, '/');
    FilterNonEmptyAppend(SplitOn(a, '/'), [""] + SplitOn(b, '/'));
    FilterNonEmptyAppend([""], SplitOn(b, '/'));
    FilterNonEmptyAppend(SplitOn(a, '/'), SplitOn(b, '/'));
  }

  // ----- The deck path -----

  /**
   * The deck is the root and the remaining segments joined with `::`; it is
   * the root alone exactly when no segment remains, and starts with `obsidian_sync::`
   * otherwise.
   */
  lemma DeckShape(path: string, includeFilename: bool)
    ensures var eff := EffectiveParts(PathSegments(path), includeFilename);
      var deck := BuildDeckPath(path, includeFilename);
      && deck == Join([Root] + eff, Delimiter)
      && (deck == Root <==> eff == [])
      && (eff != [] ==> Root + Delimiter <= deck)
  {
  }

  /**
   * When no segment contains `:`, splitting the deck on `:` and dropping the
   * empty pieces gives back the root followed by the segments, in order:
   * the deck names exactly the root and the segments, and nothing else.
   */
  lemma DeckComponents(path: string, includeFilename: bool)
    requires ':' !in path
    ensures var eff := EffectiveParts(PathSegments(path), includeFilename);
      FilterNonEmpty(SplitOn(BuildDeckPath(path, includeFilename), ':')) == [Root] + eff
  {
    var parts := PathSegments(path);
    var eff := EffectiveParts(parts, includeFilename);
    var comps := [Root] + eff;
    var norm := NormalizeSeparators(path);
    forall i | 0 <= i < |norm| ensures norm[i] != ':' {
      assert path[i] in path;
    }
    StripMdSuffixSpec(norm);
    var rel := StripMdSuffix(norm);
    assert forall d :: d in rel ==> d in norm;
    assert ':' !in rel;
    assert forall i :: 0 <= i < |comps| ==> ':' !in comps[i] && comps[i] != "" by {
      forall i | 0 <= i < |comps| ensures ':' !in comps[i] && comps[i] != "" {
        if i > 0 { assert comps[i] == parts[i - 1]; } else { assert comps[i] == Root; }
      }
    }
    DeckShape(path, includeFilename);
    SplitOnJoinDoubled(comps, ':');
    FilterNonEmptyKeepsAll(comps);
  }

  /** Every segment after the root is non-empty and free of `/` and `\`. */
  lemma DeckSegmentsWellFormed(path: string, includeFilename: bool)
    ensures var eff := EffectiveParts(PathSegments(path), includeFilename);
      forall i :: 0 <= i < |eff| ==> eff[i] != "" && '/' !in eff[i] && '\\' !in eff[i]
  {
  }

  /** A file at the vault root, with the file name excluded, is in the root deck. */
  lemma RootLevelFile(path: string)
    requires |PathSegments(path)| == 1
    ensures BuildDeckPath(path, false) == Root
  {
  }

  /**
   * Including the file name appends `::` and the last segment (the
   * suffix-stripped file name) to the deck computed without it.
   */
  lemma {:induction false} IncludeFilenameAppendsLast(path: string)
    requires |PathSegments(path)| >= 1
    ensures var parts := PathSegments(path);
      BuildDeckPath(path, true) == BuildDeckPath(path, false) + Delimiter + parts[|parts| - 1]
  {
    var parts := PathSegments(path);
    var k := |parts|;
    var folders := parts[..k - 1];
    assert EffectiveParts(parts, false) == folders;
    assert EffectiveParts(parts, true) == parts;
    assert parts == folders + [parts[k - 1]];
    if k > 1 {
      JoinSnoc(folders, parts[k - 1], Delimiter);
    } else {
      assert folders == [];
    }
  }

  /**
   * Two paths that differ only in which separator, `/` or `\`, they use give
   * the same deck.
   */
  lemma SeparatorInsensitive(p: string, q: string, includeFilename: bool)
    requires |p| == |q|
    requires forall i :: 0 <= i < |p| ==>
      p[i] == q[i] || ((p[i] == '/' || p[i] == '\\') && (q[i] == '/' || q[i] == '\\'))
    ensures BuildDeckPath(p, includeFilename) == BuildDeckPath(q, includeFilename)
  {
    var np, nq := NormalizeSeparators(p), NormalizeSeparators(q);
    assert forall i :: 0 <= i < |np| ==> np[i] == nq[i];
    assert np == nq;
  }

  /** Any spelling of the `.md` suffix gives the same segments as the path without it. */
  lemma MdSuffixIgnoresCase(b: string, ext: string)
    requires ext in MdSpellings
    ensures PathSegments(b + ext) == SplitPath(NormalizeSeparators(b))
  {
    ReplaceCharAppend(b, ext, '\\', '/');
    ReplaceCharAbsent(ext, '\\', '/');
    StripMdSuffixOnce(NormalizeSeparators(b), ext);
  }

  /** A path not ending in `.md` is split as it is, so an inner `.md` is kept. */
  lemma NonMdSuffixKept(path: string)
    requires !EndsWithMd(path)
    ensures PathSegments(path) == SplitPath(NormalizeSeparators(path))
  {
    NormalizePreservesMdSuffix(path);
    StripMdSuffixSpec(NormalizeSeparators(path));
  }

  // ----- Paths built from their segments -----

  /** A markdown path written as its segments joined with `/` has exactly those segments. */
  lemma SegmentsOfMarkdownPath(parts: seq<string>, ext: string)
    requires |parts| >= 1
    requires forall i :: 0 <= i < |parts| ==> parts[i] != "" && '/' !in parts[i] && '\\' !in parts[i]
    requires ext in MdSpellings
    ensures PathSegments(Join(parts, "/") + ext) == parts
  {
    var rel := Join(parts, "/");
    JoinAvoids(parts, "/", '\\');
    ReplaceCharAbsent(rel, '\\', '/');
    SplitOnJoin(parts, '/');
    FilterNonEmptyKeepsAll(parts);
    MdSuffixIgnoresCase(rel, ext);
  }

  /**
   * The shape `Folder/Sub/Note.md`: the deck is `obsidian_sync::Folder::Sub`,
   * or `obsidian_sync::Folder::Sub::Note` with the file name included.
   */
  lemma FolderSubNote(folder: string, sub: string, note: string)
    requires folder != "" && '/' !in folder && '\\' !in folder
    requires sub != "" && '/' !in sub && '\\' !in sub
    requires note != "" && '/' !in note && '\\' !in note
    ensures var path := folder + "/" + sub + "/" + note + ".md";
      && BuildDeckPath(path, false) == Root + Delimiter + folder + Delimiter + sub
      && BuildDeckPath(path, true) == Root + Delimiter + folder + Delimiter + sub + Delimiter + note
  {
    var path := folder + "/" + sub + "/" + note + ".md";
    var parts := [folder, sub, note];
    JoinThree(folder, sub, note, "/");
    assert path == Join(parts, "/") + ".md";
    SegmentsOfMarkdownPath(parts, ".md");
    assert PathSegments(path) == parts;
    var folders := [folder, sub];
    assert EffectiveParts(parts, false) == folders;
    assert folders[1..] == [sub];
    assert Join(folders, Delimiter) == folder + Delimiter + sub;
    assert BuildDeckPath(path, false) == Root + Delimiter + (folder + Delimiter + sub);
    IncludeFilenameAppendsLast(path);
  }

  /** Joining three parts. */
  lemma JoinThree(a: string, b: string, c: string, sep: string)
    ensures Join([a, b, c], sep) == a + sep + b + sep + c
  {
    assert [a, b, c][1..] == [b, c];
    assert [b, c][1..] == [c];
    assert Join([b, c], sep) == b + sep + c;
    assert a + sep + (b + sep + c) == a + sep + b + sep + c;
  }
}

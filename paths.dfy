/** `get_file_path_fc` (ZonalStats.py:177-185): split a polygon argument such
    as `C:\data\roads.gdb\main` into the container path, the file name and
    the feature-class (layer) name. Only the backslash separates components. */
module FilePaths {
  import opened Outcome
  import opened PyText

  datatype PathParts = PathParts(filePath: string, fileName: string, fcName: string)

  const Backslash: char := '\\'

  /** `[path for path in comps if '.' in path]`. */
  function Dotted(comps: seq<string>): (r: seq<string>)
    ensures forall k :: 0 <= k < |r| ==> '.' in r[k]
  {
    if comps == [] then []
    else (if '.' in comps[0] then [comps[0]] else []) + Dotted(comps[1..])
  }

  /** The split of a polygon argument; `None` is the IndexError raised when
      no backslash-separated component contains a dot. */
  function FilePathFc(input: string): Option<PathParts>
  {
    var dotted := Dotted(Split(input, [Backslash]));
    if dotted == [] then None
    else
      var fileName := dotted[0];
      var fcName := LayerPart(input, fileName);
      if fcName == "" then Some(PathParts(input, fileName, Stem(fileName)))
      else Some(PathParts(Split(input, [Backslash] + fcName)[0], fileName, fcName))
  }

  /** The first backslash-separated component with a dot is `fileName`. */
  predicate FileNameIs(input: string, fileName: string)
  {
    var dotted := Dotted(Split(input, [Backslash]));
    |dotted| > 0 && dotted[0] == fileName
  }

  /** What follows the last occurrence of the file name, backslashes
      stripped: the layer name, or empty. */
  function LayerPart(input: string, fileName: string): string
    requires |fileName| > 0
  {
    var after := Split(input, fileName);
    Strip(after[|after| - 1], {Backslash})
  }

  lemma {:induction false} DottedAppend(a: seq<string>, b: seq<string>)
    ensures Dotted(a + b) == Dotted(a) + Dotted(b)
  {
    if a != [] {
      assert (a + b)[0] == a[0];
      assert (a + b)[1..] == a[1..] + b;
      DottedAppend(a[1..], b);
    } else {
      assert a + b == b;
    }
  }

  /** `Dotted` keeps the components that contain a dot, in order. */
  lemma {:induction false} DottedFirst(comps: seq<string>)
    ensures Dotted(comps) == [] <==> forall k :: 0 <= k < |comps| ==> '.' !in comps[k]
    ensures Dotted(comps) != [] ==>
      exists k :: 0 <= k < |comps| && comps[k] == Dotted(comps)[0]
                  && forall j :: 0 <= j < k ==> '.' !in comps[j]
  {
    if comps != [] {
      var tail := comps[1..];
      DottedFirst(tail);
      if '.' in comps[0] {
        assert Dotted(comps) == [comps[0]] + Dotted(tail);
        assert comps[0] == Dotted(comps)[0];
      } else {
        assert Dotted(comps) == Dotted(tail);
        assert forall k :: 0 <= k < |tail| ==> tail[k] == comps[k + 1];
        if Dotted(comps) != [] {
          var k :| 0 <= k < |tail| && tail[k] == Dotted(tail)[0]
                   && forall j :: 0 <= j < k ==> '.' !in tail[j];
          assert comps[k + 1] == Dotted(comps)[0];
        }
      }
    }
  }

  /** A character absent from the text is absent from every piece of its split. */
  lemma {:induction false} SplitPiecesAvoid(s: string, sep: string, ch: char)
    requires |sep| > 0 && ch !in s
    decreases |s|
    ensures forall k :: 0 <= k < |Split(s, sep)| ==> ch !in Split(s, sep)[k]
  {
    match Find(s, sep)
    case None =>
    case Some(i) =>
      assert ch !in s[..i];
      SplitPiecesAvoid(s[i + |sep|..], sep, ch);
  }

  /** A dotted name cannot occur in dot-free text. */
  lemma DotFreeAvoids(s: string, name: string)
    requires '.' !in s && '.' in name
    ensures NotIn(s, name)
  {
    forall j: nat ensures !OccursAt(s, name, j) {
      if j + |name| <= |s| {
        var d :| 0 <= d < |name| && name[d] == '.';
        assert s[j..j + |name|][d] == s[j + d];
      }
    }
  }

  /** The first occurrence of a dotted name after dot-free text is right after it. */
  lemma DottedNameFirstAfter(dir: string, name: string)
    requires '.' !in dir && '.' in name
    ensures NotIn(dir + name[..|name| - 1], name)
  {
    var p := dir + name[..|name| - 1];
    var e0 :| 0 <= e0 < |name| && name[e0] == '.';
    assert OccursAt(name, ".", e0) by { assert name[e0..e0 + 1] == [name[e0]]; }
    var found := FindFrom(name, ".", 0);
    var d := found.value;
    assert name[d..d + 1] == ".";
    assert name[d] == '.';
    forall e | 0 <= e < d ensures name[e] != '.' {
      assert !OccursAt(name, ".", e);
      assert name[e..e + 1] == [name[e]];
    }
    forall j: nat ensures !OccursAt(p, name, j) {
      if j + |name| <= |p| {
        assert p[j..j + |name|][d] == p[j + d];
        if j + d < |dir| {
          assert p[j + d] == dir[j + d];
        } else {
          var e := j + d - |dir|;
          assert e < d && e < |name| - 1;
          assert p[j + d] == name[..|name| - 1][e] == name[e];
        }
      }
    }
  }

  /** A separator-led name that is absent from `pre` cannot straddle the joint
      of `pre + "\" + fc`. */
  lemma SeparatorLedStraddle(pre: string, fc: string)
    requires fc != "" && Backslash !in fc
    requires NotIn(pre, [Backslash] + fc)
    ensures NotIn(pre + ([Backslash] + fc)[..|fc|], [Backslash] + fc)
  {
    var key := [Backslash] + fc;
    var q := pre + key[..|fc|];
    forall j: nat ensures !OccursAt(q, key, j) {
      if j + |key| <= |pre| {
        assert pre[j..j + |key|] == q[j..j + |key|];
        assert !OccursAt(pre, key, j);
      } else if j + |key| <= |q| {
        var off := |pre| - j;
        assert q[j..j + |key|][off] == q[|pre|];
      }
    }
  }

  /** What any successful split promises: the file name is the first
      backslash-separated component with a dot, and the file path is a prefix
      of the argument. No dotted component means failure. */
  lemma FilePathFcShape(input: string)
    ensures var comps := Split(input, [Backslash]);
      FilePathFc(input).None? <==> forall k :: 0 <= k < |comps| ==> '.' !in comps[k]
    ensures var comps := Split(input, [Backslash]);
      FilePathFc(input).Some? ==>
        var parts := FilePathFc(input).value;
        && '.' in parts.fileName
        && Backslash !in parts.fileName
        && (exists k :: 0 <= k < |comps| && comps[k] == parts.fileName
                        && forall j :: 0 <= j < k ==> '.' !in comps[j])
        && |parts.filePath| <= |input| && input[..|parts.filePath|] == parts.filePath
  {
    var comps := Split(input, [Backslash]);
    DottedFirst(comps);
    FilePathFcFileName(input);
    FilePathFcPrefix(input);
    if Dotted(comps) != [] {
      ComponentsHaveNoBackslash(input, Dotted(comps)[0]);
    }
  }

  lemma FilePathFcFileName(input: string)
    ensures var dotted := Dotted(Split(input, [Backslash]));
      && (FilePathFc(input).None? <==> dotted == [])
      && (FilePathFc(input).Some? ==> FilePathFc(input).value.fileName == dotted[0])
  {
  }

  lemma FilePathFcPrefix(input: string)
    ensures FilePathFc(input).Some? ==>
      var path := FilePathFc(input).value.filePath;
      |path| <= |input| && input[..|path|] == path
  {
    var dotted := Dotted(Split(input, [Backslash]));
    if dotted != [] {
      var fcName := LayerPart(input, dotted[0]);
      if fcName == "" {
        FilePathFcWhole(input, dotted[0]);
        assert FilePathFc(input).value.filePath == input == input[..|input|];
      } else {
        FilePathFcNamed(input, dotted[0], fcName);
        SplitFirstIsPrefix(input, [Backslash] + fcName);
        assert FilePathFc(input).value.filePath == Split(input, [Backslash] + fcName)[0];
      }
    }
  }

  lemma ComponentsHaveNoBackslash(input: string, comp: string)
    requires comp in Split(input, [Backslash])
    ensures Backslash !in comp
  {
    SplitPiecesFree(input, [Backslash]);
    assert NotIn(comp, [Backslash]);
    forall e | 0 <= e < |comp| ensures comp[e] != Backslash {
      assert !OccursAt(comp, [Backslash], e);
      assert comp[e..e + 1] == [comp[e]];
    }
  }

  /** Once the first dotted component is known and nothing but separators
      follows its first occurrence, the layer name is the file's stem. */
  lemma FilePathFcWhole(input: string, fileName: string)
    requires FileNameIs(input, fileName) && |fileName| > 0
    requires LayerPart(input, fileName) == ""
    ensures FilePathFc(input) == Some(PathParts(input, fileName, Stem(fileName)))
  {
  }

  /** Once the first dotted component is known and `\fc` follows it, the
      layer name is `fc` and the path is what precedes `\fc`. */
  lemma FilePathFcNamed(input: string, fileName: string, fc: string)
    requires FileNameIs(input, fileName) && |fileName| > 0
    requires LayerPart(input, fileName) == fc && fc != ""
    ensures FilePathFc(input) == Some(PathParts(Split(input, [Backslash] + fc)[0], fileName, fc))
  {
  }

  /** A plain file argument (`dir\name.ext`, or just `name.ext`, with no dot
      in the directory part): the path is the argument and the layer name is
      the file's stem. */
  lemma FilePathFcPlainFile(dir: string, fileName: string)
    requires dir == "" || dir[|dir| - 1] == Backslash
    requires '.' !in dir && '.' in fileName && Backslash !in fileName
    ensures FilePathFc(dir + fileName) == Some(PathParts(dir + fileName, fileName, Stem(fileName)))
  {
    PlainFileName(dir, fileName);
    PlainTail(dir, fileName);
    FilePathFcWhole(dir + fileName, fileName);
  }

  lemma PlainFileName(dir: string, fileName: string)
    requires dir == "" || dir[|dir| - 1] == Backslash
    requires '.' !in dir && '.' in fileName && Backslash !in fileName
    ensures FileNameIs(dir + fileName, fileName)
  {
    var dirComps := ComponentsBefore(dir, fileName);
    DottedFirst(dirComps);
    DottedAppend(dirComps, [fileName]);
  }

  lemma PlainTail(dir: string, fileName: string)
    requires '.' !in dir && '.' in fileName
    ensures LayerPart(dir + fileName, fileName) == ""
  {
    DottedNameFirstAfter(dir, fileName);
    SplitAtFirst(dir, fileName, "");
    assert dir + fileName + "" == dir + fileName;
    SplitSingle("", fileName);
  }

  /** The components of `dir + name` are those of the directory part followed
      by the name (the directory part is empty or ends with a backslash). */
  lemma ComponentsBefore(dir: string, name: string) returns (dirComps: seq<string>)
    requires dir == "" || dir[|dir| - 1] == Backslash
    requires Backslash !in name
    ensures Split(dir + name, [Backslash]) == dirComps + [name]
    ensures '.' !in dir ==> forall k :: 0 <= k < |dirComps| ==> '.' !in dirComps[k]
  {
    CharNotIn(name, Backslash);
    SplitSingle(name, [Backslash]);
    if dir == "" {
      assert dir + name == name;
      dirComps := [];
    } else {
      var d := dir[..|dir| - 1];
      assert dir == d + [Backslash];
      assert dir + name == d + [Backslash] + name;
      SplitCharConcat(d, Backslash, name);
      dirComps := Split(d, [Backslash]);
      if '.' !in dir {
        assert '.' !in d;
        SplitPiecesAvoid(d, [Backslash], '.');
      }
    }
  }

  /** A container argument (`dir\store.gdb\layer`): the path is the container,
      the layer name is the last component, provided the layer name preceded
      by a backslash does not already occur in the container path. */
  lemma FilePathFcContainer(dir: string, fileName: string, fc: string)
    requires dir == "" || dir[|dir| - 1] == Backslash
    requires '.' !in dir && '.' in fileName && Backslash !in fileName
    requires fc != "" && '.' !in fc && Backslash !in fc
    requires NotIn(dir + fileName, [Backslash] + fc)
    ensures FilePathFc(dir + fileName + [Backslash] + fc)
         == Some(PathParts(dir + fileName, fileName, fc))
  {
    DotFreeAvoids([Backslash] + fc, fileName);
    FilePathFcDottedDirectory(dir, fileName, fc);
  }

  /** The first dotted component is taken for the file even when it is a
      directory, and the component after it for the layer, dotted or not
      (`C:\Users\j.doe\roads.shp` gives file name `j.doe` and layer name
      `roads.shp`), provided the dotted component does not come back later
      and the last component preceded by a backslash does not occur before. */
  lemma FilePathFcDottedDirectory(dir: string, dotted: string, last: string)
    requires dir == "" || dir[|dir| - 1] == Backslash
    requires '.' !in dir && '.' in dotted && Backslash !in dotted
    requires last != "" && Backslash !in last
    requires NotIn([Backslash] + last, dotted)
    requires NotIn(dir + dotted, [Backslash] + last)
    ensures FilePathFc(dir + dotted + [Backslash] + last)
         == Some(PathParts(dir + dotted, dotted, last))
  {
    var input := dir + dotted + [Backslash] + last;
    ContainerFileName(dir, dotted, last);
    ContainerTail(dir, dotted, last);
    ContainerPath(dir, dotted, last);
    FilePathFcNamed(input, dotted, last);
  }

  lemma ContainerFileName(dir: string, fileName: string, fc: string)
    requires dir == "" || dir[|dir| - 1] == Backslash
    requires '.' !in dir && '.' in fileName && Backslash !in fileName
    requires Backslash !in fc
    ensures FileNameIs(dir + fileName + [Backslash] + fc, fileName)
  {
    var dirComps := ComponentsBefore(dir, fileName);
    CharNotIn(fc, Backslash);
    SplitSingle(fc, [Backslash]);
    SplitCharConcat(dir + fileName, Backslash, fc);
    DottedFirst(dirComps);
    DottedAppend(dirComps + [fileName], [fc]);
    DottedAppend(dirComps, [fileName]);
  }

  lemma ContainerTail(dir: string, fileName: string, fc: string)
    requires '.' !in dir && '.' in fileName
    requires fc != "" && Backslash !in fc && NotIn([Backslash] + fc, fileName)
    ensures LayerPart(dir + fileName + [Backslash] + fc, fileName) == fc
  {
    var tail := [Backslash] + fc;
    StripPadded([Backslash], fc, "", {Backslash});
    assert [Backslash] + fc + "" == tail;
    assert dir + fileName + [Backslash] + fc == dir + fileName + tail;
    DottedNameFirstAfter(dir, fileName);
    SplitAtFirst(dir, fileName, tail);
    SplitSingle(tail, fileName);
  }

  /** A layer name that is also the name of a directory in front of the
      file: the file path is cut at that directory, not at the layer
      (`C:\data\roads.gdb\data` gives file path `C:`). */
  lemma FilePathFcLayerNameInPath(drive: string, fileName: string, fc: string)
    requires Backslash !in drive && '.' !in drive
    requires '.' in fileName && Backslash !in fileName
    requires fc != "" && '.' !in fc && Backslash !in fc
    ensures FilePathFc(drive + [Backslash] + fc + [Backslash] + fileName + [Backslash] + fc)
         == Some(PathParts(drive, fileName, fc))
  {
    var dir := drive + [Backslash] + fc + [Backslash];
    var input := dir + fileName + [Backslash] + fc;
    assert input == drive + [Backslash] + fc + [Backslash] + fileName + [Backslash] + fc;
    ContainerFileName(dir, fileName, fc);
    DotFreeAvoids([Backslash] + fc, fileName);
    ContainerTail(dir, fileName, fc);
    CutAtDirectory(drive, dir, fileName, fc);
    FilePathFcNamed(input, fileName, fc);
  }

  lemma CutAtDirectory(drive: string, dir: string, fileName: string, fc: string)
    requires Backslash !in drive && dir == drive + [Backslash] + fc + [Backslash]
    ensures Split(dir + fileName + [Backslash] + fc, [Backslash] + fc)[0] == drive
  {
    var key := [Backslash] + fc;
    var more := [Backslash] + fileName + key;
    var rest := key + more;
    assert dir + fileName + [Backslash] + fc == drive + rest;
    LeadAbsent(drive, rest, key);
    SplitFirstAfter(drive, rest, key);
    SplitLeading(rest, key, more);
  }

  /** A string that starts with the separator splits into an empty first piece. */
  lemma SplitLeading(s: string, sep: string, more: string)
    requires |sep| > 0 && s == sep + more
    ensures Split(s, sep)[0] == ""
  {
    assert OccursAt(s, sep, 0) by { assert s[..|sep|] == sep; }
    FindIs(s, sep, 0);
  }


  lemma ContainerPath(dir: string, fileName: string, fc: string)
    requires fc != "" && Backslash !in fc
    requires NotIn(dir + fileName, [Backslash] + fc)
    ensures Split(dir + fileName + [Backslash] + fc, [Backslash] + fc)[0] == dir + fileName
  {
    var tail := [Backslash] + fc;
    SeparatorLedStraddle(dir + fileName, fc);
    SplitAtFirst(dir + fileName, tail, "");
    assert dir + fileName + tail + "" == dir + fileName + [Backslash] + fc;
  }
}

/** Reading the text report of `gdal.Info` (ZonalStats.py:141-145 and
    155-159): the nodata value and the colour-interpretation label of a band,
    both found by splitting the report on marker strings. */
module GdalInfo {
  import opened Outcome
  import opened PyText

  const NodataMarker: string := "NoData Value="
  const InterpMarker: string := "ColorInterp="

  /** `int(info.split("NoData Value=")[1].split(" ")[0])`; None when the
      marker is missing or the text is not an integer (the script then prints
      a warning and keeps going). */
  function NodataValue(info: string): Option<int>
  {
    var parts := Split(info, NodataMarker);
    if |parts| < 2 then None else ParseInt(Split(parts[1], " ")[0])
  }

  /** Without the marker there is no nodata value. */
  lemma NodataAbsent(info: string)
    requires NotIn(info, NodataMarker)
    ensures NodataValue(info) == None
  {
    SplitSingle(info, NodataMarker);
  }

  /** The word after the first marker, up to the next space, is what gets
      parsed. `word` must not contain the marker's first letter, so no later
      marker can start inside it. */
  lemma NodataWord(pre: string, word: string, rest: string)
    requires Find(pre + NodataMarker, NodataMarker) == Some(|pre|)
    requires ' ' !in word && 'N' !in word
    requires rest == "" || rest[0] == ' '
    ensures NodataValue(pre + NodataMarker + word + rest) == ParseInt(word)
  {
    FirstAtEnd(pre, NodataMarker);
    SplitAtFirst(pre, NodataMarker, word + rest);
    assert pre + NodataMarker + word + rest == pre + NodataMarker + (word + rest);
    var parts := Split(pre + NodataMarker + word + rest, NodataMarker);
    assert parts[1] == Split(word + rest, NodataMarker)[0];
    LeadAbsent(word, rest, NodataMarker);
    SplitFirstAfter(word, rest, NodataMarker);
    var tail := Split(rest, NodataMarker)[0];
    SplitFirstIsPrefix(rest, NodataMarker);
    assert tail == "" || tail[0] == ' ' by {
      if tail != "" {
        assert tail[0] == rest[..|tail|][0];
      }
    }
    SplitStopsAt(word, tail, ' ');
  }

  /** A value written by `str(n)` and followed by a space, by the end of the
      report, or by whitespace other than a space (tabs, line breaks) and then a
      space or the end, is read back. */
  lemma NodataReadsBack(pre: string, n: int, pad: string, rest: string)
    requires Find(pre + NodataMarker, NodataMarker) == Some(|pre|)
    requires forall k :: 0 <= k < |pad| ==> pad[k] in Whitespace - {' '}
    requires rest == "" || rest[0] == ' '
    ensures NodataValue(pre + NodataMarker + Show(n) + pad + rest) == Some(n)
  {
    var word := Show(n) + pad;
    assert ' ' !in word && 'N' !in word by {
      forall k | 0 <= k < |word| ensures word[k] != ' ' && word[k] != 'N' {
        if k < |Show(n)| {
          assert word[k] == Show(n)[k];
        } else {
          assert word[k] == pad[k - |Show(n)|];
        }
      }
    }
    assert pre + NodataMarker + Show(n) + pad + rest == pre + NodataMarker + word + rest;
    NodataWord(pre, word, rest);
    ParseShow(n, pad);
  }

  /** A value followed by a line break and then a word is lost: the text up
      to the next space runs into the next line and is no integer. This is
      what happens when the nodata line is followed by another band. */
  lemma NodataRunsIntoNextLine(pre: string, n: int, next: string, rest: string)
    requires Find(pre + NodataMarker, NodataMarker) == Some(|pre|)
    requires next != "" && ' ' !in next && 'N' !in next && next[|next| - 1] !in Whitespace
    requires rest == "" || rest[0] == ' '
    ensures NodataValue(pre + NodataMarker + Show(n) + "\n" + next + rest) == None
  {
    var word := Show(n) + "\n" + next;
    NumberLine(n, next);
    assert pre + NodataMarker + Show(n) + "\n" + next + rest == pre + NodataMarker + word + rest;
    NodataWord(pre, word, rest);
    ParseRejects(word, |Show(n)|);
  }

  lemma NumberLine(n: int, next: string)
    requires next != "" && ' ' !in next && 'N' !in next
    ensures var w := Show(n) + "\n" + next;
      && ' ' !in w && 'N' !in w && w[|Show(n)|] == '\n'
      && w[0] !in Whitespace && w[|w| - 1] == next[|next| - 1]
  {
    var w := Show(n) + "\n" + next;
    forall k | 0 <= k < |w| ensures w[k] != ' ' && w[k] != 'N' {
      if k < |Show(n)| {
        assert w[k] == Show(n)[k];
      } else if k > |Show(n)| {
        assert w[k] == next[k - |Show(n)| - 1];
      }
    }
    assert w[0] == Show(n)[0];
  }

  /** The tag `"Band " + str(k)` that starts a band's paragraph. */
  function BandTag(band: nat): (tag: string)
    ensures |tag| > 0 && tag[0] == 'B' && '\n' !in tag
  {
    assert '\n' !in Show(band) by {
      forall k | 0 <= k < |Show(band)| ensures Show(band)[k] != '\n' {
        assert IsDigit(Show(band)[k]) || Show(band)[k] == '-';
      }
    }
    "Band " + Show(band)
  }

  /** `info.split("Band k")[1].split("ColorInterp=")[1].split("\n")[0]`;
      None when either split has a single piece (the IndexError the script
      swallows). */
  function BandLabel(info: string, band: nat): Option<string>
  {
    var a := Split(info, BandTag(band));
    if |a| < 2 then None
    else
      var b := Split(a[1], InterpMarker);
      if |b| < 2 then None
      else Some(Split(b[1], "\n")[0])
  }

  /** The key a band's statistics are stored under: its label when one is
      found, else its number. */
  datatype BandKey = Number(n: nat) | Label(text: string)

  function KeyOf(info: string, band: nat): BandKey
  {
    match BandLabel(info, band)
    case Some(text) => Label(text)
    case None => Number(band)
  }

  /** A paragraph `Band k ... ColorInterp=<label>` yields that label when the
      tag is not repeated before the end of the label's line. */
  lemma LabelReadsBack(pre: string, band: nat, mid: string, text: string, rest: string)
    requires Find(pre + BandTag(band), BandTag(band)) == Some(|pre|)
    requires Find(mid + InterpMarker, InterpMarker) == Some(|mid|)
    requires NotIn(mid + InterpMarker + text, BandTag(band))
    requires '\n' !in text && NotIn(text, InterpMarker)
    ensures BandLabel(pre + BandTag(band) + mid + InterpMarker + text + "\n" + rest, band)
         == Some(text)
  {
    var tag := BandTag(band);
    var info := pre + tag + mid + InterpMarker + text + "\n" + rest;
    var line := mid + InterpMarker + text;
    assert info == pre + tag + line + "\n" + rest;
    var r1 := AfterTag(pre, tag, line, rest);
    AfterMarker(mid, text, r1);
    FirstLine(text, Split(r1, InterpMarker)[0]);
  }

  /** The piece after the first tag reaches past the end of its line. */
  lemma AfterTag(pre: string, tag: string, line: string, rest: string) returns (r1: string)
    requires |tag| > 0 && '\n' !in tag
    requires Find(pre + tag, tag) == Some(|pre|) && NotIn(line, tag)
    ensures var a := Split(pre + tag + line + "\n" + rest, tag);
      |a| >= 2 && a[1] == line + "\n" + r1
  {
    FirstAtEnd(pre, tag);
    assert pre + tag + line + "\n" + rest == pre + tag + (line + "\n" + rest);
    SplitAtFirst(pre, tag, line + "\n" + rest);
    LineAbsent(line, rest, tag);
    assert line + "\n" + rest == (line + "\n") + rest;
    SplitFirstAfter(line + "\n", rest, tag);
    r1 := Split(rest, tag)[0];
  }

  /** After the first marker of a piece comes the label's line. */
  lemma AfterMarker(mid: string, text: string, r1: string)
    requires Find(mid + InterpMarker, InterpMarker) == Some(|mid|)
    requires '\n' !in text && NotIn(text, InterpMarker)
    ensures var b := Split(mid + InterpMarker + text + "\n" + r1, InterpMarker);
      |b| >= 2 && b[1] == text + "\n" + Split(r1, InterpMarker)[0]
  {
    FirstAtEnd(mid, InterpMarker);
    assert mid + InterpMarker + text + "\n" + r1 == mid + InterpMarker + (text + "\n" + r1);
    SplitAtFirst(mid, InterpMarker, text + "\n" + r1);
    LineAbsent(text, r1, InterpMarker);
    assert text + "\n" + r1 == (text + "\n") + r1;
    SplitFirstAfter(text + "\n", r1, InterpMarker);
  }

  lemma FirstLine(text: string, r2: string)
    requires '\n' !in text
    ensures Split(text + "\n" + r2, "\n")[0] == text
  {
    assert text + "\n" + r2 == text + ("\n" + r2);
    SplitStopsAt(text, "\n" + r2, '\n');
  }

  /** The tag of band 1 is a prefix of the tag of band 10, so band 1 can take
      the label of band 10. */
  lemma BandOneMatchesBandTen()
    ensures KeyOf("Band 10 ColorInterp=Red\n", 1) == Label("Red")
  {
    var mid := "0 ";
    BandOneTag();
    InterpAfterTwo();
    LeadAbsentAll(mid + InterpMarker + "Red", BandTag(1));
    LeadAbsentAll("Red", InterpMarker);
    LabelReadsBack("", 1, mid, "Red", "");
    BandTenReport(mid);
  }

  lemma BandOneTag()
    ensures BandTag(1) == "Band 1"
    ensures Find("" + BandTag(1), BandTag(1)) == Some(|""|)
  {
    assert Show(1) == "1";
    FindIs("" + BandTag(1), BandTag(1), 0);
  }

  lemma InterpAfterTwo()
    ensures Find("0 " + InterpMarker, InterpMarker) == Some(|"0 "|)
  {
    var s := "0 " + InterpMarker;
    assert s[2..2 + |InterpMarker|] == InterpMarker;
    assert !OccursAt(s, InterpMarker, 0) by {
      assert s[0..|InterpMarker|][0] == '0';
    }
    assert !OccursAt(s, InterpMarker, 1) by {
      assert s[1..1 + |InterpMarker|][0] == ' ';
    }
    FindIs(s, InterpMarker, 2);
  }

  lemma BandTenReport(mid: string)
    requires mid == "0 " && BandTag(1) == "Band 1"
    ensures "" + BandTag(1) + mid + InterpMarker + "Red" + "\n" + "" == "Band 10 ColorInterp=Red\n"
  {
  }

  lemma LeadAbsentAll(s: string, sep: string)
    requires |sep| > 0 && sep[0] !in s
    ensures NotIn(s, sep)
  {
    LeadAbsent(s, "", sep);
    assert s + "" == s;
    forall j: nat ensures !OccursAt(s, sep, j) {
      if j >= |s| && j + |sep| <= |s| {
        assert false;
      }
    }
  }
}

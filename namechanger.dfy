/**
 The name-list line transformer (namechanger.py). Each input line that does not
 mention "portrait" (in any case) has its umlauts spelled out as ASCII digraphs
 and, when it holds at least two words, its last word moved to the front. File
 handling is left to the caller: lines come in as a sequence and the writes go
 out as one.
 */
module NameChanger {
  import opened Seqs
  import opened PyStr

  /** The substitution table, in the order of the dictionary literal. */
  const UmlautMap: seq<(char, string)> :=
    [('ü', "ue"), ('ä', "ae"), ('ö', "oe"), ('Ü', "Ue"), ('Ä', "Ae"), ('Ö', "Oe")]

  predicate IsUmlaut(c: char) {
    c == 'ü' || c == 'ä' || c == 'ö' || c == 'Ü' || c == 'Ä' || c == 'Ö'
  }

  predicate NoUmlaut(s: string) {
    forall c :: c in s ==> !IsUmlaut(c)
  }

  /** The digraph for one character: the reference definition of the substitution. */
  function Digraph(c: char): string {
    if c == 'ü' then "ue"
    else if c == 'ä' then "ae"
    else if c == 'ö' then "oe"
    else if c == 'Ü' then "Ue"
    else if c == 'Ä' then "Ae"
    else if c == 'Ö' then "Oe"
    else [c]
  }

  /** Every umlaut spelled out, every other character kept, all at once. */
  function Transliterate(s: string): string
    decreases |s|
  {
    if s == [] then [] else Digraph(s[0]) + Transliterate(s[1..])
  }

  lemma {:induction false} TransliterateAppend(a: string, b: string)
    ensures Transliterate(a + b) == Transliterate(a) + Transliterate(b)
    decreases |a|
  {
    if a == [] {
      assert a + b == b;
    } else {
      assert (a + b)[1..] == a[1..] + b;
      TransliterateAppend(a[1..], b);
    }
  }

  /** After the substitution no umlaut is left. */
  lemma {:induction false} TransliterateRemovesUmlauts(s: string)
    ensures NoUmlaut(Transliterate(s))
    decreases |s|
  {
    if s != [] {
      TransliterateRemovesUmlauts(s[1..]);
    }
  }

  /** A line without umlauts passes through the substitution unchanged. */
  lemma {:induction false} TransliterateIdentity(s: string)
    requires NoUmlaut(s)
    ensures Transliterate(s) == s
    decreases |s|
  {
    if s != [] {
      assert s[0] in s;
      assert NoUmlaut(s[1..]) by {
        forall c | c in s[1..] ensures !IsUmlaut(c) {
          assert c in s;
        }
      }
      TransliterateIdentity(s[1..]);
      assert s == [s[0]] + s[1..];
    }
  }

  // ---------------------------------------------------------------------------
  // The source applies the table one entry at a time, each entry to the whole
  // line (`line = line.replace(umlaut, replacement)`). The lemmas below show that
  // this sequence of whole-line replacements equals the character-wise
  // Transliterate, because no replacement contains a character that a later
  // entry replaces.

  /** The first `k` entries of a table applied one after the other, as the loop does. */
  function ApplyPairs(s: string, m: seq<(char, string)>): string
    decreases |m|
  {
    if m == [] then s
    else
      var p := m[|m| - 1];
      ReplaceAll(ApplyPairs(s, m[..|m| - 1]), p.0, p.1)
  }

  /** The replacement of one character under a table: the first matching entry, or the character itself. */
  function MapChar(c: char, m: seq<(char, string)>): string
    decreases |m|
  {
    if m == [] then [c] else if m[0].0 == c then m[0].1 else MapChar(c, m[1..])
  }

  /** A table applied to every character at once. */
  function Translate(s: string, m: seq<(char, string)>): string
    decreases |s|
  {
    if s == [] then [] else MapChar(s[0], m) + Translate(s[1..], m)
  }

  /** Keys are distinct and no replacement contains a key of a later entry. */
  predicate Sequential(m: seq<(char, string)>) {
    forall i, j :: 0 <= i < j < |m| ==> m[i].0 != m[j].0 && m[j].0 !in m[i].1
  }

  lemma {:induction false} MapCharExtend(c: char, m: seq<(char, string)>, k: char, r: string)
    requires forall i :: 0 <= i < |m| ==> m[i].0 != k && k !in m[i].1
    ensures ReplaceAll(MapChar(c, m), k, r) == MapChar(c, m + [(k, r)])
    decreases |m|
  {
    if m == [] {
      assert m + [(k, r)] == [(k, r)];
      assert [c][1..] == [];
    } else if m[0].0 == c {
      ReplaceAllAbsent(m[0].1, k, r);
    } else {
      assert (m + [(k, r)])[1..] == m[1..] + [(k, r)];
      MapCharExtend(c, m[1..], k, r);
    }
  }

  lemma {:induction false} TranslateExtend(s: string, m: seq<(char, string)>, k: char, r: string)
    requires forall i :: 0 <= i < |m| ==> m[i].0 != k && k !in m[i].1
    ensures ReplaceAll(Translate(s, m), k, r) == Translate(s, m + [(k, r)])
    decreases |s|
  {
    if s != [] {
      ReplaceAllAppend(MapChar(s[0], m), Translate(s[1..], m), k, r);
      MapCharExtend(s[0], m, k, r);
      TranslateExtend(s[1..], m, k, r);
    }
  }

  /** Applying a sequential table entry by entry equals applying it to each character at once. */
  lemma {:induction false} ApplyPairsIsTranslate(s: string, m: seq<(char, string)>)
    requires Sequential(m)
    ensures ApplyPairs(s, m) == Translate(s, m)
    decreases |m|
  {
    if m == [] {
      TranslateEmpty(s);
    } else {
      var init, p := m[..|m| - 1], m[|m| - 1];
      assert init + [p] == m;
      ApplyPairsIsTranslate(s, init);
      TranslateExtend(s, init, p.0, p.1);
    }
  }

  lemma {:induction false} TranslateEmpty(s: string)
    ensures Translate(s, []) == s
    decreases |s|
  {
    if s != [] {
      TranslateEmpty(s[1..]);
      assert s == [s[0]] + s[1..];
    }
  }

  lemma {:induction false} TranslateUmlautMap(s: string)
    ensures Translate(s, UmlautMap) == Transliterate(s)
    decreases |s|
  {
    if s != [] {
      var m := UmlautMap;
      assert m[1..][1..][1..][1..][1..][1..] == [];
      assert MapChar(s[0], m) == Digraph(s[0]);
      TranslateUmlautMap(s[1..]);
    }
  }

  /** The loop over the dictionary's items replaces each umlaut by its digraph and keeps every other character. */
  lemma UmlautLoopIsTransliterate(s: string)
    ensures ApplyPairs(s, UmlautMap) == Transliterate(s)
  {
    assert Sequential(UmlautMap);
    ApplyPairsIsTranslate(s, UmlautMap);
    TranslateUmlautMap(s);
  }

  // ---------------------------------------------------------------------------
  // One line

  /** `'portrait' in line.lower()`, judged on the line as read, before any substitution. */
  predicate MentionsPortrait(line: string) {
    Contains(Lower(line), "portrait")
  }

  /** The words of a line after substitution, as `line.strip().split()` gives them. */
  function LineWords(line: string): seq<string> {
    Words(Strip(Transliterate(line)))
  }

  /** The last word first, the others after it in their order. */
  function LastFirst(ws: seq<string>): (r: seq<string>)
    requires |ws| > 0
    ensures |r| == |ws| && multiset(r) == multiset(ws)
    ensures forall w :: w in r <==> w in ws
  {
    assert ws == ws[..|ws| - 1] + [ws[|ws| - 1]];
    [ws[|ws| - 1]] + ws[..|ws| - 1]
  }

  /** What the script writes for a kept line. */
  function Rewrite(line: string): (r: string)
    ensures NoUmlaut(r)
    ensures |LineWords(line)| <= 1 ==> r == Transliterate(line)
  {
    var t := Transliterate(line);
    var ws := Words(Strip(t));
    TransliterateRemovesUmlauts(line);
    if |ws| > 1 then
      WordsNoUmlaut(t);
      RotatedWordsNoUmlaut(ws);
      Join(LastFirst(ws), " ") + "\n"
    else t
  }

  lemma RotatedWordsNoUmlaut(ws: seq<string>)
    requires |ws| > 0
    requires forall w :: w in ws ==> NoUmlaut(w)
    ensures NoUmlaut(Join(LastFirst(ws), " ") + "\n")
  {
    var rot := LastFirst(ws);
    JoinNoUmlaut(rot);
    var out := Join(rot, " ");
    assert forall c :: c in out + "\n" ==> c in out || c == '\n';
  }

  lemma WordsNoUmlaut(t: string)
    requires NoUmlaut(t)
    ensures forall w :: w in Words(Strip(t)) ==> NoUmlaut(w)
  {
    forall w | w in Words(Strip(t)) ensures NoUmlaut(w) {
      WordOfNoUmlaut(t, w);
    }
  }

  /** The words of a line without umlauts have none either. */
  lemma WordOfNoUmlaut(t: string, w: string)
    requires NoUmlaut(t)
    requires w in Words(Strip(t))
    ensures NoUmlaut(w)
  {
    forall c | c in w ensures !IsUmlaut(c) {
      assert c in Strip(t);
    }
  }

  /** Joining umlaut-free words with spaces gives an umlaut-free line. */
  lemma {:induction false} JoinNoUmlaut(ws: seq<string>)
    requires forall w :: w in ws ==> NoUmlaut(w)
    ensures NoUmlaut(Join(ws, " "))
    decreases |ws|
  {
    if |ws| > 1 {
      assert ws[0] in ws;
      forall w | w in ws[1..] ensures NoUmlaut(w) {
        assert w in ws;
      }
      JoinNoUmlaut(ws[1..]);
      assert Join(ws, " ") == ws[0] + " " + Join(ws[1..], " ");
    } else if |ws| == 1 {
      assert ws[0] in ws;
    }
  }

  /** With two or more words the written line, split again, is the rotated word list and ends in a newline. */
  lemma RewriteMovesLastWordFirst(line: string)
    requires |LineWords(line)| > 1
    ensures var ws := LineWords(line);
      Words(Rewrite(line)) == [ws[|ws| - 1]] + ws[..|ws| - 1]
      && Rewrite(line)[|Rewrite(line)| - 1] == '\n'
    ensures var ws := LineWords(line);
      Rewrite(line) == Join([ws[|ws| - 1]] + ws[..|ws| - 1], " ") + "\n"
  {
    var ws := LineWords(line);
    assert Rewrite(line) == Join(LastFirst(ws), " ") + "\n";
    RotatedLine(ws);
  }

  /** Words joined by spaces after the last one is moved first, plus a newline, split back into the rotated words. */
  lemma RotatedLine(ws: seq<string>)
    requires |ws| > 1 && forall w :: w in ws ==> IsWord(w)
    ensures LastFirst(ws) == [ws[|ws| - 1]] + ws[..|ws| - 1]
    ensures Words(Join(LastFirst(ws), " ") + "\n") == LastFirst(ws)
  {
    var rot := LastFirst(ws);
    WordsOfJoin(rot);
    WordsTrailingSpace(Join(rot, " "), "\n");
  }

  /** Reordering keeps the number of words and the words themselves, and no written word holds whitespace. */
  lemma RewriteKeepsWords(line: string)
    ensures |Words(Rewrite(line))| == |LineWords(line)|
    ensures multiset(Words(Rewrite(line))) == multiset(LineWords(line))
  {
    var ws := LineWords(line);
    if |ws| > 1 {
      RewriteMovesLastWordFirst(line);
    } else {
      assert Rewrite(line) == Transliterate(line);
      WordsOfStrip(Transliterate(line));
    }
  }

  /** `split()` already ignores the whitespace `strip()` removes. */
  lemma WordsOfStrip(s: string)
    ensures Words(Strip(s)) == Words(s)
  {
    WordsOfTrimStart(s);
    WordsOfTrimEnd(TrimStart(s));
  }

  lemma WordsOfTrimStart(s: string)
    ensures Words(TrimStart(s)) == Words(s)
  {
    var t := TrimStart(s);
    var lead := s[..|s| - |t|];
    assert s == lead + t;
    WordsOfLeadingSpace(lead, t);
  }

  lemma WordsOfTrimEnd(t: string)
    ensures Words(TrimEnd(t)) == Words(t)
  {
    var r := TrimEnd(t);
    var trail := t[|r|..];
    assert t == r + trail;
    WordsTrailingSpace(r, trail);
  }

  lemma {:induction false} WordsOfLeadingSpace(a: string, t: string)
    requires AllSpace(a)
    ensures Words(a + t) == Words(t)
    decreases |a|
  {
    if a == [] {
      assert a + t == t;
    } else {
      assert (a + t)[1..] == a[1..] + t;
      WordsOfLeadingSpace(a[1..], t);
    }
  }

  // ---------------------------------------------------------------------------
  // The whole file

  /** The input lines that are not dropped, in input order. */
  function Kept(lines: seq<string>): (r: seq<string>)
    ensures |r| <= |lines|
    ensures forall l :: l in r <==> l in lines && !MentionsPortrait(l)
    decreases |lines|
  {
    if lines == [] then []
    else
      var init, last := lines[..|lines| - 1], lines[|lines| - 1];
      assert lines == init + [last];
      if MentionsPortrait(last) then Kept(init) else Kept(init) + [last]
  }

  /** Dropping distributes over concatenation: kept lines keep their relative order. */
  lemma {:induction false} KeptAppend(a: seq<string>, b: seq<string>)
    ensures Kept(a + b) == Kept(a) + Kept(b)
    decreases |b|
  {
    if b == [] {
      assert a + b == a;
    } else {
      var init := b[..|b| - 1];
      LastOfAppend(a, b);
      KeptAppend(a, init);
    }
  }

  /** The writes for a list of lines, line by line. */
  function Output(lines: seq<string>): seq<string>
    decreases |lines|
  {
    if lines == [] then []
    else
      var last := lines[|lines| - 1];
      Output(lines[..|lines| - 1]) + (if MentionsPortrait(last) then [] else [Rewrite(last)])
  }

  /** The writes are the kept lines, each rewritten, one for one and in order. */
  lemma {:induction false} OutputOfKept(lines: seq<string>)
    ensures |Output(lines)| == |Kept(lines)|
    ensures forall i :: 0 <= i < |Output(lines)| ==> Output(lines)[i] == Rewrite(Kept(lines)[i])
    decreases |lines|
  {
    if lines != [] {
      var init, last := lines[..|lines| - 1], lines[|lines| - 1];
      OutputOfKept(init);
      if !MentionsPortrait(last) {
        var out, kept := Output(lines), Kept(lines);
        assert out == Output(init) + [Rewrite(last)];
        assert kept == Kept(init) + [last];
        forall i | 0 <= i < |out| ensures out[i] == Rewrite(kept[i]) {
          if i < |out| - 1 {
            assert out[i] == Output(init)[i] && kept[i] == Kept(init)[i];
          }
        }
      }
    }
  }

  /** One more input line adds its rewritten form to the writes, unless it mentions "portrait". */
  lemma OutputStep(lines: seq<string>, n: int)
    requires 0 <= n < |lines|
    ensures Output(lines[..n + 1])
         == Output(lines[..n]) + (if MentionsPortrait(lines[n]) then [] else [Rewrite(lines[n])])
  {
    var upTo := lines[..n + 1];
    assert upTo[..|upTo| - 1] == lines[..n] && upTo[|upTo| - 1] == lines[n];
  }

  /** The substitution loop of `process_text`: each pair of the table applied in turn with `str.replace`. */
  method ReplaceUmlauts(original: string) returns (line: string)
    ensures line == Transliterate(original)
  {
    line := original;
    for j := 0 to |UmlautMap|
      invariant line == ApplyPairs(original, UmlautMap[..j])
    {
      assert UmlautMap[..j + 1][..j] == UmlautMap[..j];
      line := ReplaceAll(line, UmlautMap[j].0, UmlautMap[j].1);
    }
    assert UmlautMap[..|UmlautMap|] == UmlautMap;
    UmlautLoopIsTransliterate(original);
  }

  /** `process_text`: one write per kept line, in input order, each the rewritten line. */
  method ProcessText(lines: seq<string>) returns (written: seq<string>)
    ensures |written| == |Kept(lines)|
    ensures forall i :: 0 <= i < |written| ==> written[i] == Rewrite(Kept(lines)[i])
  {
    written := [];
    for n := 0 to |lines|
      invariant written == Output(lines[..n])
    {
      OutputStep(lines, n);
      if !Contains(Lower(lines[n]), "portrait") {
        var line := ReplaceUmlauts(lines[n]);
        var words := Words(Strip(line));
        if |words| > 1 {
          words := [words[|words| - 1]] + words[..|words| - 1];
          line := Join(words, " ") + "\n";
        }
        assert line == Rewrite(lines[n]);
        written := written + [line];
      }
    }
    assert lines[..|lines|] == lines;
    OutputOfKept(lines);
  }
}

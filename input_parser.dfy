/**
 * The input parser of the action (`parseInput`): a raw multi-line input value is split on
 * line feeds, every piece is trimmed, and the pieces left empty are dropped.
 * Reading the value from the runner (`core.getInput`) is not modelled: the raw value is a
 * parameter, and an unset input is the empty string.
 */
module InputParser {
  import opened Sequences

  /**
   * The characters `String.prototype.trim` removes: the ECMAScript WhiteSpace code points
   * (tab, vertical tab, form feed, space, no-break space, the byte order mark and every
   * other member of the Unicode category Zs) and the LineTerminator code points
   * (line feed, carriage return, line separator, paragraph separator).
   */
  const Whitespace: set<char> := {
    '\t', '\U{000B}', '\U{000C}', ' ', '\U{00A0}', '\U{FEFF}',
    '\U{1680}', '\U{2000}', '\U{2001}', '\U{2002}', '\U{2003}', '\U{2004}', '\U{2005}',
    '\U{2006}', '\U{2007}', '\U{2008}', '\U{2009}', '\U{200A}', '\U{202F}', '\U{205F}', '\U{3000}',
    '\n', '\r', '\U{2028}', '\U{2029}'
  }

  predicate IsWhitespace(c: char)
  {
    c in Whitespace
  }

  ghost predicate AllWhitespace(s: string)
  {
    forall i :: 0 <= i < |s| ==> IsWhitespace(s[i])
  }

  /** Neither the first nor the last character of `s` is whitespace. */
  predicate IsTrimmed(s: string)
  {
    s == [] || (!IsWhitespace(s[0]) && !IsWhitespace(s[|s| - 1]))
  }

  // ---------------------------------------------------------------------------------------
  // Splitting on a separator (`String.prototype.split` with a one-character separator)
  // ---------------------------------------------------------------------------------------

  /**
   * The pieces of `s` between occurrences of `sep`. As in ECMAScript, there is always at
   * least one piece: the empty string splits into `[""]`, and a separator at either end
   * yields an empty piece there.
   */
  function Split(s: string, sep: char): (parts: seq<string>)
    ensures |parts| >= 1
  {
    if s == [] then [""]
    else
      var rest := Split(s[1..], sep);
      if s[0] == sep then [""] + rest
      else [[s[0]] + rest[0]] + rest[1..]
  }

  /** No piece contains the separator. */
  lemma {:induction false} SplitPiecesSeparatorFree(s: string, sep: char)
    ensures forall i :: 0 <= i < |Split(s, sep)| ==> sep !in Split(s, sep)[i]
  {
    if s != [] {
      SplitPiecesSeparatorFree(s[1..], sep);
      var rest := Split(s[1..], sep);
      if s[0] != sep {
        assert sep !in [s[0]] + rest[0];
      }
    }
  }

  /** The pieces glued back together with `sep` between consecutive ones (`Array.prototype.join`). */
  function Join(parts: seq<string>, sep: char): string
  {
    if parts == [] then ""
    else if |parts| == 1 then parts[0]
    else parts[0] + [sep] + Join(parts[1..], sep)
  }

  /** Splitting loses nothing: joining the pieces with the separator gives back the input. */
  lemma {:induction false} JoinSplit(s: string, sep: char)
    ensures Join(Split(s, sep), sep) == s
  {
    if s != [] {
      var rest := Split(s[1..], sep);
      JoinSplit(s[1..], sep);
      if s[0] == sep {
        assert ([""] + rest)[1..] == rest;
      } else {
        var parts := [[s[0]] + rest[0]] + rest[1..];
        if |rest| > 1 {
          assert parts[1..] == rest[1..];
          assert Join(rest, sep) == rest[0] + [sep] + Join(rest[1..], sep);
        }
      }
    }
  }

  lemma {:induction false} SplitSeparatorFree(p: string, sep: char)
    requires sep !in p
    ensures Split(p, sep) == [p]
  {
    if p != [] {
      SplitSeparatorFree(p[1..], sep);
      assert [p[0]] + p[1..] == p;
    }
  }

  lemma {:induction false} SplitAfterPiece(p: string, sep: char, t: string)
    requires sep !in p
    ensures Split(p + [sep] + t, sep) == [p] + Split(t, sep)
  {
    var s := p + [sep] + t;
    if p == [] {
      assert s[1..] == t;
    } else {
      assert s[1..] == p[1..] + [sep] + t;
      SplitAfterPiece(p[1..], sep, t);
      assert [p[0]] + p[1..] == p;
    }
  }

  /**
   * `Split` is the only way to cut a string into separator-free pieces that join back to it:
   * any non-empty list of such pieces is what `Split` returns for their join.
   */
  lemma {:induction false} SplitJoin(parts: seq<string>, sep: char)
    requires |parts| >= 1
    requires forall i :: 0 <= i < |parts| ==> sep !in parts[i]
    ensures Split(Join(parts, sep), sep) == parts
  {
    if |parts| == 1 {
      SplitSeparatorFree(parts[0], sep);
    } else {
      SplitJoin(parts[1..], sep);
      SplitAfterPiece(parts[0], sep, Join(parts[1..], sep));
      assert [parts[0]] + parts[1..] == parts;
    }
  }

  /** Joining one more piece appends the separator and that piece. */
  lemma {:induction false} JoinSnoc(parts: seq<string>, p: string, sep: char)
    requires |parts| >= 1
    ensures Join(parts + [p], sep) == Join(parts, sep) + [sep] + p
  {
    if |parts| > 1 {
      JoinSnoc(parts[1..], p, sep);
      assert (parts + [p])[1..] == parts[1..] + [p];
    }
  }

  /** Extending the last piece extends the joined string by the same characters. */
  lemma {:induction false} JoinExtendLast(parts: seq<string>, x: string, sep: char)
    requires |parts| >= 1
    ensures Join(parts[..|parts| - 1] + [parts[|parts| - 1] + x], sep) == Join(parts, sep) + x
  {
    var extended := parts[..|parts| - 1] + [parts[|parts| - 1] + x];
    if |parts| > 1 {
      JoinExtendLast(parts[1..], x, sep);
      assert extended[1..] == parts[1..][..|parts| - 2] + [parts[1..][|parts| - 2] + x];
    }
  }

  // ---------------------------------------------------------------------------------------
  // Trimming (`String.prototype.trim`)
  // ---------------------------------------------------------------------------------------

  /** `s` without its leading whitespace. */
  function TrimStart(s: string): (r: string)
    ensures |r| <= |s|
  {
    if s != [] && IsWhitespace(s[0]) then TrimStart(s[1..]) else s
  }

  /** `TrimStart` removes a whitespace prefix, and exactly the longest one. */
  lemma {:induction false} TrimStartRemovesPrefix(s: string)
    ensures TrimStart(s) == s[|s| - |TrimStart(s)|..]
    ensures AllWhitespace(s[..|s| - |TrimStart(s)|])
    ensures TrimStart(s) == [] || !IsWhitespace(TrimStart(s)[0])
  {
    if s != [] && IsWhitespace(s[0]) {
      TrimStartRemovesPrefix(s[1..]);
      var k := |s| - |TrimStart(s)|;
      assert s[1..][k - 1..] == s[k..];
      forall i | 0 <= i < k ensures IsWhitespace(s[..k][i]) {
        if i > 0 { assert s[..k][i] == s[1..][..k - 1][i - 1]; }
      }
    }
  }

  /** `s` without its trailing whitespace. */
  function TrimEnd(s: string): (r: string)
    ensures |r| <= |s|
  {
    if s != [] && IsWhitespace(s[|s| - 1]) then TrimEnd(s[..|s| - 1]) else s
  }

  /** `TrimEnd` removes a whitespace suffix, and exactly the longest one. */
  lemma {:induction false} TrimEndRemovesSuffix(s: string)
    ensures TrimEnd(s) == s[..|TrimEnd(s)|]
    ensures AllWhitespace(s[|TrimEnd(s)|..])
    ensures TrimEnd(s) == [] || !IsWhitespace(TrimEnd(s)[|TrimEnd(s)| - 1])
  {
    if s != [] && IsWhitespace(s[|s| - 1]) {
      var t := s[..|s| - 1];
      TrimEndRemovesSuffix(t);
      var k := |TrimEnd(s)|;
      assert t[..k] == s[..k];
      forall j | 0 <= j < |s| - k ensures IsWhitespace(s[k..][j]) {
        if j < |s| - 1 - k { assert s[k..][j] == t[k..][j]; }
      }
    }
  }

  /** `s` without its leading and trailing whitespace. */
  function Trim(s: string): (r: string)
    ensures IsTrimmed(r)
  {
    var t := TrimStart(s);
    TrimStartRemovesPrefix(s);
    TrimEndRemovesSuffix(t);
    var r := TrimEnd(t);
    assert r != [] ==> r[0] == t[0];
    r
  }

  lemma {:induction false} TrimStartAt(s: string, i: nat)
    requires i <= |s| && AllWhitespace(s[..i])
    requires i == |s| || !IsWhitespace(s[i])
    ensures TrimStart(s) == s[i..]
  {
    if i > 0 {
      assert s[..i][0] == s[0];
      assert s[1..][..i - 1] == s[1..i];
      assert forall k :: 0 <= k < i - 1 ==> s[1..i][k] == s[..i][k + 1];
      TrimStartAt(s[1..], i - 1);
    }
  }

  lemma {:induction false} TrimEndAt(s: string, j: nat)
    requires j <= |s| && AllWhitespace(s[j..])
    requires j == 0 || !IsWhitespace(s[j - 1])
    ensures TrimEnd(s) == s[..j]
  {
    if j < |s| {
      var t := s[..|s| - 1];
      assert s[j..][|s| - 1 - j] == s[|s| - 1];
      assert forall k :: 0 <= k < |t| - j ==> t[j..][k] == s[j..][k];
      TrimEndAt(t, j);
      assert t[..j] == s[..j];
    }
  }

  /**
   * `Trim` is characterised without reference to how it is computed: whenever `s` is some
   * whitespace, then a trimmed middle `s[i..j]`, then some whitespace, the middle is `Trim(s)`.
   */
  lemma {:induction false} TrimUnique(s: string, i: nat, j: nat)
    requires i <= j <= |s|
    requires AllWhitespace(s[..i]) && AllWhitespace(s[j..])
    requires IsTrimmed(s[i..j])
    ensures Trim(s) == s[i..j]
  {
    if i == j {
      forall k | 0 <= k < |s| ensures IsWhitespace(s[k]) {
        if k < i { assert s[k] == s[..i][k]; } else { assert s[k] == s[j..][k - j]; }
      }
      TrimStartAt(s, |s|);
      assert s[..|s|] == s;
    } else {
      assert s[i..j][0] == s[i];
      TrimStartAt(s, i);
      var t := s[i..];
      assert s[i..j][j - i - 1] == s[j - 1] == t[j - i - 1];
      assert t[j - i..] == s[j..];
      TrimEndAt(t, j - i);
      assert t[..j - i] == s[i..j];
    }
  }

  /** Trimming twice is trimming once. */
  lemma {:induction false} TrimIdempotent(s: string)
    ensures Trim(Trim(s)) == Trim(s)
  {
    var r := Trim(s);
    assert r[0..|r|] == r && r[..0] == [] && r[|r|..] == [];
    TrimUnique(r, 0, |r|);
  }

  /** Trimming leaves nothing exactly when the string is whitespace only. */
  lemma {:induction false} TrimEmpty(s: string)
    ensures Trim(s) == [] <==> AllWhitespace(s)
  {
    var t := TrimStart(s);
    var r := TrimEnd(t);
    TrimStartRemovesPrefix(s);
    TrimEndRemovesSuffix(t);
    if r == [] {
      assert t[|r|..] == t;
      assert t == [];
      forall k | 0 <= k < |s| ensures IsWhitespace(s[k]) {
        assert s[k] == s[..|s| - |t|][k];
      }
    }
    if AllWhitespace(s) {
      assert s[..0] == [] && s[0..0] == [] && s[0..] == s;
      TrimUnique(s, 0, 0);
    }
  }

  /** Every string is some whitespace, then its trimmed form, then some whitespace. */
  lemma {:induction false} TrimBounds(s: string) returns (i: nat, j: nat)
    ensures i <= j <= |s| && s[i..j] == Trim(s)
    ensures AllWhitespace(s[..i]) && AllWhitespace(s[j..])
  {
    var t := TrimStart(s);
    TrimStartRemovesPrefix(s);
    TrimEndRemovesSuffix(t);
    i := |s| - |t|;
    j := i + |TrimEnd(t)|;
    assert s[i..] == t;
    assert s[i..j] == t[..j - i];
    assert s[j..] == t[j - i..];
  }

  /** Extra whitespace on either side does not change the trimmed form. */
  lemma {:induction false} TrimIgnoresPadding(before: string, s: string, after: string)
    requires AllWhitespace(before) && AllWhitespace(after)
    ensures Trim(before + s + after) == Trim(s)
  {
    var i, j := TrimBounds(s);
    var padded := before + s + after;
    var lo, hi := |before| + i, |before| + j;
    assert padded[lo..hi] == s[i..j];
    forall k | 0 <= k < lo ensures IsWhitespace(padded[..lo][k]) {
      if k >= |before| { assert padded[..lo][k] == s[..i][k - |before|]; }
    }
    forall k | 0 <= k < |padded| - hi ensures IsWhitespace(padded[hi..][k]) {
      if k < |s| - j { assert padded[hi..][k] == s[j..][k]; }
      else { assert padded[hi..][k] == after[k - (|s| - j)]; }
    }
    TrimUnique(padded, lo, hi);
  }

  // ---------------------------------------------------------------------------------------
  // parseInput
  // ---------------------------------------------------------------------------------------

  predicate IsNonEmpty(piece: string)
  {
    |piece| > 0
  }

  /** Every line of the raw value, trimmed, including the lines left empty. */
  function TrimmedLines(raw: string): seq<string>
  {
    var parts := Split(raw, '\n');
    seq(|parts|, i requires 0 <= i < |parts| => Trim(parts[i]))
  }

  /** `raw.split('\n').map(trim).filter(element => element.length > 0)` */
  function ParseInput(raw: string): (names: seq<string>)
    ensures forall i :: 0 <= i < |names| ==> |names[i]| > 0 && IsTrimmed(names[i])
  {
    var lines := TrimmedLines(raw);
    var names := Filter(IsNonEmpty, lines);
    FilterIsOrderedRestriction(IsNonEmpty, lines);
    names
  }

  /**
   * The names are the trimmed lines of the raw value that are not empty, all of them and
   * in the order of their lines: the result is the trimmed lines restricted to ascending
   * positions, and a line's position is among them exactly when the line has a
   * non-whitespace character. Nothing is reordered or de-duplicated.
   */
  lemma {:induction false} ParseInputLines(raw: string)
    ensures exists idx ::
              && IsRestriction(ParseInput(raw), TrimmedLines(raw), idx)
              && forall i :: 0 <= i < |TrimmedLines(raw)| ==> (i in idx <==> !AllWhitespace(Split(raw, '\n')[i]))
  {
    var lines := TrimmedLines(raw);
    var idx := KeptIndices(IsNonEmpty, lines);
    FilterIsOrderedRestriction(IsNonEmpty, lines);
    assert ParseInput(raw) == Filter(IsNonEmpty, lines);
    forall i | 0 <= i < |lines| ensures i in idx <==> !AllWhitespace(Split(raw, '\n')[i]) {
      TrimEmpty(Split(raw, '\n')[i]);
    }
  }

  lemma {:induction false} JoinAllWhitespace(parts: seq<string>, sep: char)
    requires IsWhitespace(sep)
    ensures AllWhitespace(Join(parts, sep)) <==> forall i :: 0 <= i < |parts| ==> AllWhitespace(parts[i])
  {
    if |parts| > 1 {
      JoinAllWhitespace(parts[1..], sep);
      var rest := Join(parts[1..], sep);
      var joined := parts[0] + [sep] + rest;
      assert forall k :: 0 <= k < |parts[0]| ==> joined[k] == parts[0][k];
      assert forall k :: 0 <= k < |rest| ==> joined[|parts[0]| + 1 + k] == rest[k];
      assert forall i :: 1 <= i < |parts| ==> parts[i] == parts[1..][i - 1];
    }
  }

  /**
   * An empty or whitespace-only input value parses to no names, and only such a value does:
   * any other value yields at least one name.
   */
  lemma {:induction false} ParseInputEmpty(raw: string)
    ensures ParseInput(raw) == [] <==> AllWhitespace(raw)
  {
    var parts := Split(raw, '\n');
    var lines := TrimmedLines(raw);
    assert ParseInput(raw) == Filter(IsNonEmpty, lines);
    FilterEmpty(IsNonEmpty, lines);
    forall i | 0 <= i < |parts| ensures lines[i] == [] <==> AllWhitespace(parts[i]) {
      TrimEmpty(parts[i]);
    }
    JoinSplit(raw, '\n');
    JoinAllWhitespace(parts, '\n');
  }

  /**
   * What `ParseInput` returns once the raw value is known to be the given separator-free
   * lines joined by line feeds: their trimmed forms, without the empty ones.
   */
  lemma {:induction false} ParseInputOfLines(raw: string, parts: seq<string>, trimmed: seq<string>)
    requires |parts| >= 1 && Join(parts, '\n') == raw
    requires forall i :: 0 <= i < |parts| ==> '\n' !in parts[i]
    requires |trimmed| == |parts| && forall i :: 0 <= i < |parts| ==> Trim(parts[i]) == trimmed[i]
    ensures ParseInput(raw) == Filter(IsNonEmpty, trimmed)
  {
    SplitJoin(parts, '\n');
    assert TrimmedLines(raw) == trimmed;
  }

  /**
   * A value with no line feed is a single line: it parses to nothing when it is blank, and
   * otherwise to that line, trimmed.
   */
  lemma {:induction false} ParseInputSingleLine(raw: string)
    requires '\n' !in raw
    ensures ParseInput(raw) == if AllWhitespace(raw) then [] else [Trim(raw)]
  {
    TrimEmpty(raw);
    ParseInputOfLines(raw, [raw], [Trim(raw)]);
  }

  /** Whitespace, then a trimmed middle, then whitespace: trimming gives back the middle. */
  lemma {:induction false} TrimPadded(before: string, middle: string, after: string)
    requires AllWhitespace(before) && IsTrimmed(middle) && AllWhitespace(after)
    ensures Trim(before + middle + after) == middle
  {
    var s := before + middle + after;
    var i, j := |before|, |before| + |middle|;
    assert s[..i] == before && s[i..j] == middle && s[j..] == after;
    TrimUnique(s, i, j);
  }

  /** A single padded name is trimmed. */
  lemma ParseInputOneName()
    ensures ParseInput(" test1 ") == ["test1"]
  {
    var raw := " test1 ";
    TrimPadded(" ", "test1", " ");
    assert forall k :: 0 <= k < |raw| ==> raw[k] != '\n';
    ParseInputOfLines(raw, [raw], ["test1"]);
  }

  /** A whitespace character in front of the value changes no name. */
  lemma {:induction false} ParseInputLeadingChar(c: char, s: string)
    requires IsWhitespace(c)
    ensures ParseInput([c] + s) == ParseInput(s)
  {
    if c == '\n' {
      LeadingLineFeed(s);
    } else {
      LeadingBlank(c, s);
    }
  }

  lemma {:induction false} LeadingLineFeed(s: string)
    ensures ParseInput(['\n'] + s) == ParseInput(s)
  {
    var parts := Split(s, '\n');
    var lines := [""] + parts;
    assert Split(['\n'] + s, '\n') == lines by {
      assert (['\n'] + s)[1..] == s;
    }
    var trimmed := TrimmedLines(s);
    assert TrimmedLines(['\n'] + s) == [""] + trimmed;
    assert ([""] + trimmed)[1..] == trimmed;
  }

  lemma {:induction false} LeadingBlank(c: char, s: string)
    requires IsWhitespace(c) && c != '\n'
    ensures ParseInput([c] + s) == ParseInput(s)
  {
    var parts := Split(s, '\n');
    var lines := [[c] + parts[0]] + parts[1..];
    assert Split([c] + s, '\n') == lines by {
      assert ([c] + s)[1..] == s;
    }
    assert Trim([c] + parts[0]) == Trim(parts[0]) by {
      assert [c] + parts[0] + [] == [c] + parts[0];
      TrimIgnoresPadding([c], parts[0], []);
    }
    assert TrimmedLines([c] + s) == TrimmedLines(s);
  }

  /** A whitespace character after the value changes no name. */
  lemma {:induction false} ParseInputTrailingChar(s: string, c: char)
    requires IsWhitespace(c)
    ensures ParseInput(s + [c]) == ParseInput(s)
  {
    if c == '\n' {
      TrailingLineFeed(s);
    } else {
      TrailingBlank(s, c);
    }
  }

  lemma {:induction false} TrailingLineFeed(s: string)
    ensures ParseInput(s + ['\n']) == ParseInput(s)
  {
    var parts := Split(s, '\n');
    assert Split(s + ['\n'], '\n') == parts + [""] by {
      JoinSplit(s, '\n');
      SplitPiecesSeparatorFree(s, '\n');
      JoinSnoc(parts, "", '\n');
      assert s + ['\n'] + "" == s + ['\n'];
      assert forall i :: 0 <= i < |parts| + 1 ==> (parts + [""])[i] == if i < |parts| then parts[i] else "";
      SplitJoin(parts + [""], '\n');
    }
    var trimmed := TrimmedLines(s);
    assert TrimmedLines(s + ['\n']) == trimmed + [""];
    FilterAppend(IsNonEmpty, trimmed, [""]);
    assert Filter(IsNonEmpty, [""]) == [];
  }

  lemma {:induction false} TrailingBlank(s: string, c: char)
    requires IsWhitespace(c) && c != '\n'
    ensures ParseInput(s + [c]) == ParseInput(s)
  {
    var parts := Split(s, '\n');
    var n := |parts|;
    var lines := parts[..n - 1] + [parts[n - 1] + [c]];
    assert Split(s + [c], '\n') == lines by {
      JoinSplit(s, '\n');
      SplitPiecesSeparatorFree(s, '\n');
      JoinExtendLast(parts, [c], '\n');
      assert forall i :: 0 <= i < n - 1 ==> lines[i] == parts[i];
      SplitJoin(lines, '\n');
    }
    assert Trim(parts[n - 1] + [c]) == Trim(parts[n - 1]) by {
      assert [] + parts[n - 1] + [c] == parts[n - 1] + [c];
      TrimIgnoresPadding([], parts[n - 1], [c]);
    }
    assert TrimmedLines(s + [c]) == TrimmedLines(s);
  }

  /**
   * Whitespace around the whole value changes no name. So parsing the value `core.getInput`
   * returns, which it has already trimmed, gives the same names as parsing it untrimmed.
   */
  lemma {:induction false} ParseInputIgnoresPadding(before: string, s: string, after: string)
    requires AllWhitespace(before) && AllWhitespace(after)
    ensures ParseInput(before + s + after) == ParseInput(s)
    decreases |before| + |after|
  {
    if before != [] {
      assert before + s + after == [before[0]] + (before[1..] + s + after);
      ParseInputIgnoresPadding(before[1..], s, after);
      ParseInputLeadingChar(before[0], before[1..] + s + after);
    } else if after != [] {
      var last := |after| - 1;
      assert before + s + after == (before + s + after[..last]) + [after[last]];
      ParseInputIgnoresPadding(before, s, after[..last]);
      ParseInputTrailingChar(before + s + after[..last], after[last]);
    } else {
      assert before + s + after == s;
    }
  }

  /** Parsing the trimmed value gives the same names as parsing the value itself. */
  lemma {:induction false} ParseInputTrimmed(raw: string)
    ensures ParseInput(Trim(raw)) == ParseInput(raw)
  {
    var i, j := TrimBounds(raw);
    assert raw == raw[..i] + Trim(raw) + raw[j..];
    ParseInputIgnoresPadding(raw[..i], Trim(raw), raw[j..]);
  }

  /** Tabs and spaces around each name are trimmed, and the blank line is dropped. */
  lemma ParseInputThreeNames(raw: string)
    requires raw == "\t test1 \n test2 \n\ntest3\t"
    ensures ParseInput(raw) == ["test1", "test2", "test3"]
  {
    var a, b, c, d := raw[..8], raw[9..16], raw[17..17], raw[18..];
    ThreeNamesLayout(raw);
    ThreeNamesTrimmed(raw);
    ParseInputFourLines(a, b, c, d);
    ThreeNamesKept(["test1", "test2", "", "test3"]);
  }

  lemma ThreeNamesKept(trimmed: seq<string>)
    requires trimmed == ["test1", "test2", "", "test3"]
    ensures Filter(IsNonEmpty, trimmed) == ["test1", "test2", "test3"]
  {
    assert Filter(IsNonEmpty, trimmed) == [trimmed[0]] + Filter(IsNonEmpty, trimmed[1..]);
    assert Filter(IsNonEmpty, trimmed[1..]) == [trimmed[1]] + Filter(IsNonEmpty, trimmed[2..]);
    assert Filter(IsNonEmpty, trimmed[2..]) == Filter(IsNonEmpty, trimmed[3..]);
    assert Filter(IsNonEmpty, trimmed[3..]) == [trimmed[3]] + Filter(IsNonEmpty, trimmed[4..]);
  }

  lemma ThreeNamesLayout(raw: string)
    requires raw == "\t test1 \n test2 \n\ntest3\t"
    ensures raw == raw[..8] + "\n" + raw[9..16] + "\n" + raw[17..17] + "\n" + raw[18..]
    ensures '\n' !in raw[..8] && '\n' !in raw[9..16] && '\n' !in raw[17..17] && '\n' !in raw[18..]
  {
    assert raw[..8] == "\t test1 " && raw[9..16] == " test2 " && raw[18..] == "test3\t";
  }

  lemma ThreeNamesTrimmed(raw: string)
    requires raw == "\t test1 \n test2 \n\ntest3\t"
    ensures Trim(raw[..8]) == "test1" && Trim(raw[9..16]) == "test2" && Trim(raw[17..17]) == ""
    ensures Trim(raw[18..]) == "test3"
  {
    assert raw[..8] == "\t " + "test1" + " ";
    TrimPadded("\t ", "test1", " ");
    assert raw[9..16] == " " + "test2" + " ";
    TrimPadded(" ", "test2", " ");
    assert raw[18..] == "" + "test3" + "\t";
    TrimPadded("", "test3", "\t");
    assert raw[17..17] == [];
  }

  /** Four lines joined by line feeds parse to their trimmed forms, the blank ones dropped. */
  lemma {:induction false} ParseInputFourLines(a: string, b: string, c: string, d: string)
    requires '\n' !in a && '\n' !in b && '\n' !in c && '\n' !in d
    ensures ParseInput(a + "\n" + b + "\n" + c + "\n" + d) == Filter(IsNonEmpty, [Trim(a), Trim(b), Trim(c), Trim(d)])
  {
    var parts := [a, b, c, d];
    assert Join(parts[3..], '\n') == d;
    assert Join(parts[2..], '\n') == c + "\n" + d;
    assert Join(parts[1..], '\n') == b + "\n" + c + "\n" + d;
    assert Join(parts, '\n') == a + "\n" + b + "\n" + c + "\n" + d;
    ParseInputOfLines(a + "\n" + b + "\n" + c + "\n" + d, parts, [Trim(a), Trim(b), Trim(c), Trim(d)]);
  }

  /** Two names joined by a line feed, as the action's filters are written. */
  lemma ParseInputTwoNames(first: string, second: string)
    requires |first| > 0 && IsTrimmed(first) && '\n' !in first
    requires |second| > 0 && IsTrimmed(second) && '\n' !in second
    ensures ParseInput(first + "\n" + second) == [first, second]
  {
    TrimPadded("", first, "");
    TrimPadded("", second, "");
    assert "" + first + "" == first && "" + second + "" == second;
    var parts := [first, second];
    assert Join(parts, '\n') == first + "\n" + second;
    ParseInputOfLines(first + "\n" + second, parts, parts);
  }

  /** An unset input, read as the empty string, gives no names. */
  lemma ParseInputUnset()
    ensures ParseInput("") == []
  {
    ParseInputEmpty("");
  }
}

/**
 * The chart script's data logic (src/web/static/js/charts.js): how an
 * author's name is shortened for a chart label, and how the page's summary
 * tables are narrowed to one author. JavaScript strings are modelled as
 * sequences of characters, one character per UTF-16 code unit.
 */
module Charts {
  import opened Wrappers

  // ---------------------------------------------------------------------
  // String helpers with JavaScript's meaning.
  // ---------------------------------------------------------------------

  /** The characters String.prototype.trim removes: white space and line terminators. */
  predicate IsJsSpace(c: char) {
    c == '\t' || c == '\n' || c == '\U{B}' || c == '\U{C}' || c == '\r' || c == ' '
    || c == '\U{A0}' || c == '\U{1680}' || ('\U{2000}' <= c <= '\U{200A}')
    || c == '\U{2028}' || c == '\U{2029}' || c == '\U{202F}' || c == '\U{205F}'
    || c == '\U{3000}' || c == '\U{FEFF}'
  }

  function TrimStart(s: string): (r: string)
    ensures |r| <= |s| && r == s[|s| - |r|..]
    ensures r == [] || !IsJsSpace(r[0])
  {
    if s != [] && IsJsSpace(s[0]) then TrimStart(s[1..]) else s
  }

  function TrimEnd(s: string): (r: string)
    ensures |r| <= |s| && r == s[..|r|]
    ensures r == [] || !IsJsSpace(r[|r| - 1])
  {
    if s != [] && IsJsSpace(s[|s| - 1]) then TrimEnd(s[..|s| - 1]) else s
  }

  /** Only white space goes at the front. */
  lemma {:induction false} TrimStartRemovesSpace(s: string)
    ensures forall i :: 0 <= i < |s| - |TrimStart(s)| ==> IsJsSpace(s[i])
  {
    if s != [] && IsJsSpace(s[0]) {
      TrimStartRemovesSpace(s[1..]);
      assert forall i :: 1 <= i < |s| - |TrimStart(s)| ==> s[i] == s[1..][i - 1];
    }
  }

  /** Only white space goes at the back. */
  lemma {:induction false} TrimEndRemovesSpace(s: string)
    ensures forall i :: |TrimEnd(s)| <= i < |s| ==> IsJsSpace(s[i])
  {
    if s != [] && IsJsSpace(s[|s| - 1]) {
      TrimEndRemovesSpace(s[..|s| - 1]);
      assert forall i :: |TrimEnd(s)| <= i < |s| - 1 ==> s[i] == s[..|s| - 1][i];
    }
  }

  /** `s.trim()`: s without its leading and trailing white space, as one piece of s. */
  function Trim(s: string): (r: string)
    ensures r == [] || (!IsJsSpace(r[0]) && !IsJsSpace(r[|r| - 1]))
    ensures |r| <= |s| - |TrimStart(s)| + |r| <= |s|
    ensures r == s[|s| - |TrimStart(s)|..|s| - |TrimStart(s)| + |r|]
  {
    var t := TrimStart(s);
    TrimEnd(t)
  }

  /** Everything `trim()` removes before and after the piece it keeps is white space. */
  lemma TrimRemovesOnlySpace(s: string)
    ensures var start := |s| - |TrimStart(s)|;
      && (forall i :: 0 <= i < start ==> IsJsSpace(s[i]))
      && (forall i :: start + |Trim(s)| <= i < |s| ==> IsJsSpace(s[i]))
  {
    var t := TrimStart(s);
    TrimStartRemovesSpace(s);
    TrimEndRemovesSpace(t);
    var start := |s| - |t|;
    assert forall i :: start + |Trim(s)| <= i < |s| ==> s[i] == t[i - start];
  }

  /** `s.substring(0, end)`: the end is clamped into 0..|s|. */
  function Prefix(s: string, end: int): (r: string)
    ensures r <= s
    ensures |r| == if end < 0 then 0 else if end > |s| then |s| else end
  {
    if end < 0 then [] else if end > |s| then s else s[..end]
  }

  /** `s.split(sep)` for a one-character separator. */
  function Split(s: string, sep: char): (parts: seq<string>)
    ensures |parts| >= 1
  {
    if s == [] then [""]
    else
      var rest := Split(s[1..], sep);
      if s[0] == sep then [""] + rest else [[s[0]] + rest[0]] + rest[1..]
  }

  /** `parts.join(sep)`. */
  function Join(parts: seq<string>, sep: string): string {
    if parts == [] then ""
    else if |parts| == 1 then parts[0]
    else parts[0] + sep + Join(parts[1..], sep)
  }

  /** Joining the pieces of a split gives the string back, and no piece holds the separator. */
  lemma {:induction false} SplitJoin(s: string, sep: char)
    ensures Join(Split(s, sep), [sep]) == s
  {
    if s != [] {
      SplitJoin(s[1..], sep);
      var rest := Split(s[1..], sep);
      if s[0] == sep {
        assert Split(s, sep) == [""] + rest;
        assert s == [sep] + s[1..];
      } else {
        var parts := [[s[0]] + rest[0]] + rest[1..];
        assert Split(s, sep) == parts;
        if |rest| == 1 {
          assert s == [s[0]] + rest[0];
        } else {
          assert rest == [rest[0]] + rest[1..];
          assert Join(rest, [sep]) == rest[0] + [sep] + Join(rest[1..], [sep]);
          assert parts[1..] == rest[1..];
          assert s == [s[0]] + s[1..];
        }
      }
    }
  }

  /** No piece of a split holds the separator. */
  lemma {:induction false} SplitPiecesFree(s: string, sep: char)
    ensures forall i :: 0 <= i < |Split(s, sep)| ==> sep !in Split(s, sep)[i]
  {
    if s != [] {
      SplitPiecesFree(s[1..], sep);
      var rest := Split(s[1..], sep);
      if s[0] == sep {
        assert Split(s, sep) == [""] + rest;
        assert forall i :: 1 <= i < |rest| + 1 ==> ([""] + rest)[i] == rest[i - 1];
      } else {
        var parts := [[s[0]] + rest[0]] + rest[1..];
        assert Split(s, sep) == parts;
        assert forall i :: 1 <= i < |parts| ==> parts[i] == rest[i];
      }
    }
  }

  /** A string with a separator in it splits into at least two pieces. */
  lemma {:induction false} SplitAtSeparator(s: string, sep: char)
    requires sep in s
    ensures |Split(s, sep)| >= 2
  {
    if s[0] != sep {
      SplitAtSeparator(s[1..], sep);
    }
  }

  // ---------------------------------------------------------------------
  // formatAuthorName
  // ---------------------------------------------------------------------

  /**
   * `part[0] + '.'`: the initial of a middle part. An empty part has no
   * character 0, and `undefined + '.'` is the text "undefined.".
   */
  function Initial(part: string): (r: string)
    ensures part != [] ==> r == [part[0], '.']
  {
    if part == [] then Undefined else [part[0], '.']
  }

  /** The text `undefined + '.'` evaluates to. */
  const Undefined := "undefined."

  function Initials(mid: seq<string>): (r: seq<string>)
    ensures |r| == |mid|
    ensures forall i {:trigger r[i]} :: 0 <= i < |mid| ==> r[i] == Initial(mid[i])
  {
    if mid == [] then [] else [Initial(mid[0])] + Initials(mid[1..])
  }

  /** A string cut to `maxLength`: kept if it fits, else its first `maxLength - 3` characters and "...". */
  function Fit(s: string, maxLength: int): (r: string)
    ensures |s| <= maxLength ==> r == s
    ensures |s| > maxLength ==> r == Prefix(s, maxLength - 3) + "..."
    ensures maxLength >= 3 ==> |r| <= maxLength
  {
    if |s| > maxLength then Prefix(s, maxLength - 3) + "..." else s
  }

  /** The text of `${firstName} ${middleInitials} ${lastName}`.trim() for the pieces of a name. */
  function Abbreviation(parts: seq<string>): string
    requires |parts| >= 2
  {
    Trim(parts[0] + " " + Join(Initials(parts[1..|parts| - 1]), " ") + " " + parts[|parts| - 1])
  }

  /**
   * `formatAuthorName(name, maxLength)`: the empty name gives '', a name that
   * fits is kept, a long name with spaces is abbreviated to first name,
   * middle initials and last name, and anything still too long is cut and
   * ended with "...".
   */
  function FormatAuthorName(name: string, maxLength: int): (r: string)
    ensures name == [] ==> r == []
    ensures name != [] && |name| <= maxLength ==> r == name
    ensures maxLength >= 3 ==> |r| <= maxLength
  {
    if name == [] then []
    else if |name| <= maxLength then name
    else if ' ' in name then
      SplitAtSeparator(name, ' ');
      Fit(Abbreviation(Split(name, ' ')), maxLength)
    else Prefix(name, maxLength - 3) + "..."
  }

  /** A long name without spaces becomes its first `maxLength - 3` characters and "...". */
  lemma SingleWordTruncated(name: string, maxLength: int)
    requires ' ' !in name && |name| > maxLength >= 3
    ensures FormatAuthorName(name, maxLength) == name[..maxLength - 3] + "..."
    ensures |FormatAuthorName(name, maxLength)| == maxLength
  {
  }

  /** No piece of s is two spaces in a row. */
  predicate NoDoubleSpace(s: string) {
    forall i :: 0 <= i < |s| - 1 ==> !(s[i] == ' ' && s[i + 1] == ' ')
  }

  /**
   * A name of single-space separated words, at least three, not starting or
   * ending with white space: the abbreviation is the first word, a space, the
   * joined initials of the middle words, a space and the last word, with
   * nothing trimmed, three characters for each middle word.
   */
  lemma AbbreviationShape(name: string)
    requires name != [] && !IsJsSpace(name[0]) && !IsJsSpace(name[|name| - 1])
    requires |Split(name, ' ')| >= 3
    requires forall i :: 0 <= i < |Split(name, ' ')| ==> Split(name, ' ')[i] != []
    ensures var parts := Split(name, ' ');
      var first := parts[0];
      var last := parts[|parts| - 1];
      && |Abbreviation(parts)| == |first| + |last| + 3 * (|parts| - 2) + 1
      && Abbreviation(parts) == Spelled(first, parts[1..|parts| - 1], last)
  {
    var parts := Split(name, ' ');
    var middles := parts[1..|parts| - 1];
    SplitEnds(name, ' ');
    JoinedInitials(middles);
    var s := Spelled(parts[0], middles, parts[|parts| - 1]);
    assert s[0] == parts[0][0] && s[|s| - 1] == parts[|parts| - 1][|parts[|parts| - 1]| - 1];
    TrimKeepsClean(s);
  }

  /** The first piece of a split starts the string, and the last piece ends it. */
  lemma {:induction false} SplitEnds(s: string, sep: char)
    requires s != []
    ensures var parts := Split(s, sep);
      && (parts[0] != [] ==> parts[0][0] == s[0])
      && (parts[|parts| - 1] != [] ==> parts[|parts| - 1][|parts[|parts| - 1]| - 1] == s[|s| - 1])
  {
    var parts := Split(s, sep);
    var rest := Split(s[1..], sep);
    if s[1..] != [] {
      SplitEnds(s[1..], sep);
    }
    if s[0] == sep {
      assert parts == [""] + rest;
    } else {
      assert parts == [[s[0]] + rest[0]] + rest[1..];
      if |rest| == 1 {
        assert parts[0] == [s[0]] + rest[0];
        if rest[0] != [] {
          SplitJoin(s[1..], sep);
          assert s[1..] == rest[0];
        }
      }
    }
  }

  /** A string with no white space at its ends is its own trim. */
  lemma TrimKeepsClean(s: string)
    requires s != [] && !IsJsSpace(s[0]) && !IsJsSpace(s[|s| - 1])
    ensures Trim(s) == s
  {
    assert TrimStart(s) == s;
    assert TrimEnd(s) == s;
  }

  /** The joined initials of non-empty parts: a letter, a '.', and a space between each two. */
  lemma {:induction false} JoinedInitials(mid: seq<string>)
    requires forall i :: 0 <= i < |mid| ==> mid[i] != []
    ensures var j := Join(Initials(mid), " ");
      && |j| == (if mid == [] then 0 else 3 * |mid| - 1)
      && (forall i :: 0 <= i < |mid| ==> j[3 * i] == mid[i][0] && j[3 * i + 1] == '.')
      && (forall i :: 0 <= i < |mid| - 1 ==> j[3 * i + 2] == ' ')
  {
    JoinedInitialsLength(mid);
    forall i | 0 <= i < |mid| {
      JoinedInitialAt(mid, i);
    }
  }

  /** The joined initials of two or more parts: the first initial, '.', a space, then the rest. */
  lemma JoinedInitialsCons(mid: seq<string>)
    requires |mid| > 1 && mid[0] != []
    ensures Join(Initials(mid), " ") == [mid[0][0], '.', ' '] + Join(Initials(mid[1..]), " ")
  {
    var ini := Initials(mid);
    var rest := Join(Initials(mid[1..]), " ");
    assert ini[1..] == Initials(mid[1..]);
    assert Join(ini, " ") == ini[0] + " " + rest;
    InitialThenSpace(mid[0][0], rest);
  }

  lemma InitialThenSpace(c: char, rest: string)
    ensures [c, '.'] + " " + rest == [c, '.', ' '] + rest
  {
    assert [c, '.'] + " " == [c, '.', ' '];
  }

  lemma {:induction false} JoinedInitialsLength(mid: seq<string>)
    requires forall i :: 0 <= i < |mid| ==> mid[i] != []
    ensures |Join(Initials(mid), " ")| == if mid == [] then 0 else 3 * |mid| - 1
  {
    if |mid| == 1 {
      assert Initials(mid) == [Initial(mid[0])];
    } else if |mid| > 1 {
      JoinedInitialsLength(mid[1..]);
      JoinedInitialsCons(mid);
    }
  }

  /** Middle part i sits at 3 * i: its initial, a '.', and a space unless it is the last. */
  lemma {:induction false} JoinedInitialAt(mid: seq<string>, i: nat)
    requires forall k :: 0 <= k < |mid| ==> mid[k] != []
    requires i < |mid|
    ensures |Join(Initials(mid), " ")| == 3 * |mid| - 1
    ensures Join(Initials(mid), " ")[3 * i] == mid[i][0]
    ensures Join(Initials(mid), " ")[3 * i + 1] == '.'
    ensures i < |mid| - 1 ==> Join(Initials(mid), " ")[3 * i + 2] == ' '
  {
    JoinedInitialsLength(mid);
    if |mid| == 1 {
      assert Initials(mid) == [Initial(mid[0])];
    } else {
      JoinedInitialsCons(mid);
      if i > 0 {
        var tail := mid[1..];
        JoinedInitialAt(tail, i - 1);
        assert tail[i - 1] == mid[i];
      }
    }
  }

  // ---------------------------------------------------------------------
  // The abbreviation as it was evidently meant: single spaces, real initials.
  // ---------------------------------------------------------------------

  /** The parts of a split that are not empty, in order. */
  function Words(parts: seq<string>): (r: seq<string>)
    ensures forall i :: 0 <= i < |r| ==> r[i] != []
  {
    if parts == [] then []
    else if parts[0] == [] then Words(parts[1..])
    else [parts[0]] + Words(parts[1..])
  }

  /** The pieces to join: the first word, the initials of the middle words, the last word. */
  function Pieces(words: seq<string>): (r: seq<string>)
    requires forall i :: 0 <= i < |words| ==> words[i] != []
    ensures |r| == |words|
    ensures forall i :: 0 <= i < |r| ==> r[i] != []
  {
    if |words| <= 1 then words
    else [words[0]] + Initials(words[1..|words| - 1]) + [words[|words| - 1]]
  }

  /** `formatAuthorName` with empty parts skipped and the pieces joined by single spaces. */
  function FormatAuthorNameIntended(name: string, maxLength: int): (r: string)
    ensures name == [] ==> r == []
    ensures name != [] && |name| <= maxLength ==> r == name
    ensures maxLength >= 3 ==> |r| <= maxLength
  {
    if name == [] then []
    else if |name| <= maxLength then name
    else if ' ' in name then
      var words := Words(Split(name, ' '));
      Fit(Trim(Join(Pieces(words), " ")), maxLength)
    else Prefix(name, maxLength - 3) + "..."
  }

  /** Every middle piece of the intended abbreviation is the real initial of its word. */
  lemma IntendedInitials(words: seq<string>)
    requires forall i :: 0 <= i < |words| ==> words[i] != []
    ensures forall i :: 1 <= i < |words| - 1 ==> Pieces(words)[i] == [words[i][0], '.']
  {
    if |words| > 1 {
      var p := Pieces(words);
      forall i | 1 <= i < |words| - 1 ensures p[i] == [words[i][0], '.'] {
        assert p[i] == Initials(words[1..|words| - 1])[i - 1];
      }
    }
  }

  lemma {:induction false} JoinNoDoubleSpace(parts: seq<string>)
    requires forall i :: 0 <= i < |parts| ==> parts[i] != [] && ' ' !in parts[i]
    ensures NoDoubleSpace(Join(parts, " "))
  {
    if |parts| > 1 {
      JoinNoDoubleSpace(parts[1..]);
      var rest := Join(parts[1..], " ");
      var s := parts[0] + " " + rest;
      assert rest != [] && rest[0] == parts[1][0] by {
        JoinHead(parts[1..]);
      }
      forall i | 0 <= i < |s| - 1 ensures !(s[i] == ' ' && s[i + 1] == ' ') {
        if i < |parts[0]| - 1 {
          assert s[i] == parts[0][i];
        } else if i == |parts[0]| - 1 {
          assert s[i] == parts[0][i];
        } else if i == |parts[0]| {
          assert s[i + 1] == parts[1][0];
        } else {
          assert s[i] == rest[i - |parts[0]| - 1] && s[i + 1] == rest[i - |parts[0]|];
        }
      }
    }
  }

  lemma {:induction false} JoinHead(parts: seq<string>)
    requires parts != [] && parts[0] != []
    ensures Join(parts, " ") != [] && Join(parts, " ")[0] == parts[0][0]
  {
  }

  lemma PiecesSpaceFree(words: seq<string>)
    requires forall i :: 0 <= i < |words| ==> words[i] != [] && ' ' !in words[i]
    ensures forall i :: 0 <= i < |Pieces(words)| ==> ' ' !in Pieces(words)[i]
  {
    forall i | 0 <= i < |words|
      ensures ' ' !in Pieces(words)[i]
    {
      if 0 < i < |words| - 1 {
        MiddlePiece(words, i);
      }
    }
  }

  /** A middle piece is the word's initial and a dot. */
  lemma MiddlePiece(words: seq<string>, i: int)
    requires forall j :: 0 <= j < |words| ==> words[j] != []
    requires 0 < i < |words| - 1
    ensures Pieces(words)[i] == [words[i][0], '.']
  {
    var mid := words[1..|words| - 1];
    var ini := Initials(mid);
    assert Pieces(words) == [words[0]] + ini + [words[|words| - 1]];
    assert Pieces(words)[i] == ini[i - 1];
    assert mid[i - 1] == words[i];
  }

  lemma {:induction false} WordsSpaceFree(parts: seq<string>)
    requires forall i :: 0 <= i < |parts| ==> ' ' !in parts[i]
    ensures forall i :: 0 <= i < |Words(parts)| ==> ' ' !in Words(parts)[i]
  {
    if parts != [] {
      WordsSpaceFree(parts[1..]);
      var rest := Words(parts[1..]);
      if parts[0] != [] {
        assert forall i :: 1 <= i < |rest| + 1 ==> ([parts[0]] + rest)[i] == rest[i - 1];
      }
    }
  }

  lemma WordsOfSplitSpaceFree(s: string)
    ensures forall i :: 0 <= i < |Words(Split(s, ' '))| ==> ' ' !in Words(Split(s, ' '))[i]
  {
    SplitPiecesFree(s, ' ');
    WordsSpaceFree(Split(s, ' '));
  }

  lemma NoDoubleSpacePiece(s: string, i: int, n: nat)
    requires NoDoubleSpace(s) && 0 <= i <= |s| - n
    ensures NoDoubleSpace(s[i..i + n])
  {
    var t := s[i..i + n];
    forall k | 0 <= k < |t| - 1 ensures !(t[k] == ' ' && t[k + 1] == ' ') {
      assert t[k] == s[i + k] && t[k + 1] == s[i + k + 1];
    }
  }

  lemma FitNoDoubleSpace(s: string, maxLength: int)
    requires NoDoubleSpace(s)
    ensures NoDoubleSpace(Fit(s, maxLength))
  {
    if |s| > maxLength {
      var p := Prefix(s, maxLength - 3);
      NoDoubleSpacePiece(s, 0, |p|);
      assert p == s[0..|p|];
      var r := p + "...";
      forall k | 0 <= k < |r| - 1 ensures !(r[k] == ' ' && r[k + 1] == ' ') {
        if k < |p| - 1 {
          assert r[k] == p[k] && r[k + 1] == p[k + 1];
        }
      }
    }
  }

  /**
   * The intended abbreviation of a long name with spaces never shows two
   * spaces in a row, whatever spacing the name itself has.
   */
  lemma IntendedNoDoubleSpace(name: string, maxLength: int)
    requires ' ' in name && |name| > maxLength
    ensures NoDoubleSpace(FormatAuthorNameIntended(name, maxLength))
  {
    var words := Words(Split(name, ' '));
    WordsOfSplitSpaceFree(name);
    PiecesSpaceFree(words);
    var j := Join(Pieces(words), " ");
    JoinNoDoubleSpace(Pieces(words));
    var t := Trim(j);
    NoDoubleSpacePiece(j, |j| - |TrimStart(j)|, |t|);
    FitNoDoubleSpace(t, maxLength);
  }

  /** A string without the separator is a single piece. */
  lemma {:induction false} SplitWithoutSeparator(s: string, sep: char)
    requires sep !in s
    ensures Split(s, sep) == [s]
  {
    if s != [] {
      SplitWithoutSeparator(s[1..], sep);
      assert [s[0]] + s[1..] == s;
    }
  }

  /** Splitting at the first separator: the piece before it, then the pieces of the rest. */
  lemma {:induction false} SplitAtFirst(a: string, b: string, sep: char)
    requires sep !in a
    ensures Split(a + [sep] + b, sep) == [a] + Split(b, sep)
  {
    var s := a + [sep] + b;
    if a == [] {
      assert s[1..] == b;
    } else {
      SplitAtFirst(a[1..], b, sep);
      assert s[1..] == a[1..] + [sep] + b;
      assert [a[0]] + a[1..] == a;
    }
  }

  /** No piece is empty: the words were separated by single spaces. */
  predicate NoEmptyPiece(parts: seq<string>) {
    parts == [] || (parts[0] != [] && NoEmptyPiece(parts[1..]))
  }

  lemma {:induction false} NoEmptyPieceAt(parts: seq<string>)
    ensures NoEmptyPiece(parts) <==> forall i :: 0 <= i < |parts| ==> parts[i] != []
  {
    if parts != [] {
      NoEmptyPieceAt(parts[1..]);
      assert forall i :: 1 <= i < |parts| ==> parts[i] == parts[1..][i - 1];
    }
  }

  /** The abbreviation before trimming: first word, joined initials, last word, single spaces between. */
  function Spelled(first: string, middles: seq<string>, last: string): string {
    first + " " + Join(Initials(middles), " ") + " " + last
  }

  /**
   * A long name of single-space separated words, at least three, with no
   * white space at its ends: the result is the first word, a space, the
   * initial and '.' of each middle word (three characters apiece), a space
   * and the last word, cut to `maxLength` with "..." if that is still too long.
   */
  lemma LongNameAbbreviated(name: string, maxLength: int)
    requires |name| > maxLength
    requires name != [] && !IsJsSpace(name[0]) && !IsJsSpace(name[|name| - 1])
    requires |Split(name, ' ')| >= 3
    requires NoEmptyPiece(Split(name, ' '))
    ensures var parts := Split(name, ' ');
      var abbr := Abbreviation(parts);
      && AbbreviationLaidOut(parts, abbr)
      && (|abbr| <= maxLength ==> FormatAuthorName(name, maxLength) == abbr)
      && (|abbr| > maxLength ==> FormatAuthorName(name, maxLength) == Prefix(abbr, maxLength - 3) + "...")
  {
    var parts := Split(name, ' ');
    assert AbbreviationLaidOut(parts, Abbreviation(parts)) by {
      NoEmptyPieceAt(parts);
      AbbreviationLayout(name);
    }
    assert FormatAuthorName(name, maxLength) == Fit(Abbreviation(parts), maxLength) by {
      assert ' ' in name by {
        if ' ' !in name {
          SplitWithoutSeparator(name, ' ');
        }
      }
      LongNameUnfold(name, maxLength);
    }
  }

  /**
   * The layout of the abbreviation of at least three non-empty parts: the
   * first part, a space, three characters per middle part (its initial, '.'
   * and a space, the last space being the one before the last part), and the
   * last part at the end.
   */
  predicate AbbreviationLaidOut(parts: seq<string>, abbr: string)
    requires |parts| >= 3
  {
    && |abbr| == |parts[0]| + |parts[|parts| - 1]| + 3 * (|parts| - 2) + 1
    && abbr[..|parts[0]|] == parts[0]
    && abbr[|abbr| - |parts[|parts| - 1]|..] == parts[|parts| - 1]
    && abbr[|parts[0]|] == ' ' && abbr[|abbr| - |parts[|parts| - 1]| - 1] == ' '
    && (forall i :: 0 <= i < |parts| - 2 ==>
         parts[i + 1] != [] && abbr[|parts[0]| + 3 * i + 1] == parts[i + 1][0] && abbr[|parts[0]| + 3 * i + 2] == '.')
    && (forall i :: 0 <= i < |parts| - 3 ==> abbr[|parts[0]| + 3 * i + 3] == ' ')
  }

  /** The abbreviation of a name of single-space separated words, at least three, with no white space at its ends. */
  lemma AbbreviationLayout(name: string)
    requires name != [] && !IsJsSpace(name[0]) && !IsJsSpace(name[|name| - 1])
    requires |Split(name, ' ')| >= 3
    requires forall i :: 0 <= i < |Split(name, ' ')| ==> Split(name, ' ')[i] != []
    ensures AbbreviationLaidOut(Split(name, ' '), Abbreviation(Split(name, ' ')))
  {
    var parts := Split(name, ' ');
    assert Abbreviation(parts) == Spelled(parts[0], parts[1..|parts| - 1], parts[|parts| - 1]) by {
      AbbreviationShape(name);
    }
    SpelledLayout(parts);
  }

  /** The spelled abbreviation of at least three non-empty parts is laid out part by part. */
  lemma SpelledLayout(parts: seq<string>)
    requires |parts| >= 3 && forall i :: 0 <= i < |parts| ==> parts[i] != []
    ensures AbbreviationLaidOut(parts, Spelled(parts[0], parts[1..|parts| - 1], parts[|parts| - 1]))
  {
    var middles := parts[1..|parts| - 1];
    assert forall i :: 0 <= i < |middles| ==> middles[i] == parts[i + 1];
    AbbreviationInitials(parts[0], middles, parts[|parts| - 1]);
  }

  /** Where the initials stand in the spelled abbreviation. */
  lemma AbbreviationInitials(first: string, middles: seq<string>, last: string)
    requires |middles| >= 1 && forall i :: 0 <= i < |middles| ==> middles[i] != []
    ensures var abbr := Spelled(first, middles, last);
      && |abbr| == |first| + |last| + 3 * |middles| + 1
      && abbr[..|first|] == first && abbr[|abbr| - |last|..] == last
      && abbr[|first|] == ' ' && abbr[|abbr| - |last| - 1] == ' '
      && (forall i :: 0 <= i < |middles| ==> abbr[|first| + 3 * i + 1] == middles[i][0] && abbr[|first| + 3 * i + 2] == '.')
      && (forall i :: 0 <= i < |middles| - 1 ==> abbr[|first| + 3 * i + 3] == ' ')
  {
    var j := Join(Initials(middles), " ");
    assert |j| == 3 * |middles| - 1 by {
      JoinedInitialsLength(middles);
    }
    SpacesAround(first, j, last);
    forall i | 0 <= i < |middles|
      ensures Spelled(first, middles, last)[|first| + 3 * i + 1] == middles[i][0]
      ensures Spelled(first, middles, last)[|first| + 3 * i + 2] == '.'
      ensures i < |middles| - 1 ==> Spelled(first, middles, last)[|first| + 3 * i + 3] == ' '
    {
      InitialInSpelled(first, middles, last, i);
    }
  }

  /** The initial of middle word i and its '.' in the spelled abbreviation. */
  lemma InitialInSpelled(first: string, middles: seq<string>, last: string, i: int)
    requires 0 <= i < |middles| && forall k :: 0 <= k < |middles| ==> middles[k] != []
    ensures |Spelled(first, middles, last)| == |first| + |last| + 3 * |middles| + 1
    ensures Spelled(first, middles, last)[|first| + 3 * i + 1] == middles[i][0]
    ensures Spelled(first, middles, last)[|first| + 3 * i + 2] == '.'
    ensures i < |middles| - 1 ==> Spelled(first, middles, last)[|first| + 3 * i + 3] == ' '
  {
    var j := Join(Initials(middles), " ");
    assert |j| == 3 * |middles| - 1 by {
      JoinedInitialsLength(middles);
    }
    JoinedInitialAt(middles, i);
    InMiddle(first, j, last, |first| + 3 * i + 1);
    InMiddle(first, j, last, |first| + 3 * i + 2);
    if i < |middles| - 1 {
      InMiddle(first, j, last, |first| + 3 * i + 3);
    }
  }

  lemma SpacesAround(first: string, mid: string, last: string)
    ensures var s := first + " " + mid + " " + last;
      && |s| == |first| + |mid| + |last| + 2 && s[|first|] == ' ' && s[|first| + |mid| + 1] == ' '
      && s[..|first|] == first && s[|s| - |last|..] == last
  {
    var s := first + " " + mid + " " + last;
    assert s == first + (" " + mid + " " + last);
    assert s == (first + " " + mid + " ") + last;
  }

  lemma InMiddle(first: string, mid: string, last: string, p: int)
    requires |first| < p <= |first| + |mid|
    ensures (first + " " + mid + " " + last)[p] == mid[p - |first| - 1]
  {
  }

  /** The branch of `formatAuthorName` for a long name with a space. */
  lemma LongNameUnfold(name: string, maxLength: int)
    requires ' ' in name && |name| > maxLength
    ensures |Split(name, ' ')| >= 2
    ensures FormatAuthorName(name, maxLength) == Fit(Abbreviation(Split(name, ' ')), maxLength)
  {
    SplitAtSeparator(name, ' ');
  }

  /** As written, two words are abbreviated with two spaces between them. */
  lemma TwoWordAbbreviation(first: string, last: string)
    requires first != [] && last != [] && ' ' !in first && ' ' !in last
    requires !IsJsSpace(first[0]) && !IsJsSpace(last[|last| - 1])
    ensures Split(first + " " + last, ' ') == [first, last]
    ensures Abbreviation(Split(first + " " + last, ' ')) == first + "  " + last
  {
    SplitAtFirst(first, last, ' ');
    SplitWithoutSeparator(last, ' ');
    var parts := [first, last];
    assert Initials(parts[1..|parts| - 1]) == [];
    var s := first + " " + "" + " " + last;
    assert s == first + "  " + last;
    TrimKeepsClean(s);
  }

  /** As written, a long two-word name is shortened with two spaces between the words. */
  lemma TwoWordNameDoubleSpaced(first: string, last: string, maxLength: int)
    requires first != [] && last != [] && ' ' !in first && ' ' !in last
    requires !IsJsSpace(first[0]) && !IsJsSpace(last[|last| - 1])
    requires |first| + 1 + |last| > maxLength >= |first| + 5
    ensures |FormatAuthorName(first + " " + last, maxLength)| == maxLength
    ensures FormatAuthorName(first + " " + last, maxLength)[|first|] == ' '
    ensures FormatAuthorName(first + " " + last, maxLength)[|first| + 1] == ' '
    ensures !NoDoubleSpace(FormatAuthorName(first + " " + last, maxLength))
  {
    var name := first + " " + last;
    assert ' ' in name by { assert name[|first|] == ' '; }
    TwoWordAbbreviation(first, last);
    LongNameUnfold(name, maxLength);
    var s := first + "  " + last;
    var r := FormatAuthorName(name, maxLength);
    assert r == Prefix(s, maxLength - 3) + "...";
    assert r[|first|] == s[|first|] && r[|first| + 1] == s[|first| + 1];
  }

  /** Two spaces before a middle word leave an empty piece between the first word and it. */
  lemma SplitDoubleSpaced(first: string, middle: string, last: string)
    requires ' ' !in first && ' ' !in middle && ' ' !in last
    ensures Split(first + "  " + middle + " " + last, ' ') == [first, "", middle, last]
  {
    var r1 := middle + [' '] + last;
    var r2 := [] + [' '] + r1;
    var r3 := first + [' '] + r2;
    assert Split(r1, ' ') == [middle, last] by {
      SplitWithoutSeparator(last, ' ');
      SplitAtFirst(middle, last, ' ');
    }
    assert Split(r2, ' ') == ["", middle, last] by {
      SplitAtFirst([], r1, ' ');
    }
    assert Split(r3, ' ') == [first, "", middle, last] by {
      SplitAtFirst(first, r2, ' ');
    }
    assert first + "  " + middle + " " + last == r3;
  }

  lemma EmptyPartInitials(middle: string)
    requires middle != []
    ensures Join(Initials(["", middle]), " ") == Undefined + " " + [middle[0], '.']
  {
    var mid := Initials(["", middle]);
    assert mid == [Undefined, [middle[0], '.']];
    assert mid[1..] == [[middle[0], '.']];
    assert Join(mid[1..], " ") == [middle[0], '.'];
  }

  /**
   * As written, two spaces before a middle word leave an empty middle part,
   * which the abbreviation shows as "undefined.".
   */
  lemma DoubleSpaceShowsUndefined(first: string, middle: string, last: string)
    requires first != [] && middle != [] && last != []
    requires ' ' !in first && ' ' !in middle && ' ' !in last
    requires !IsJsSpace(first[0]) && !IsJsSpace(last[|last| - 1])
    ensures |Split(first + "  " + middle + " " + last, ' ')| == 4
    ensures Abbreviation(Split(first + "  " + middle + " " + last, ' '))
         == first + " " + (Undefined + " " + [middle[0], '.']) + " " + last
  {
    SplitDoubleSpaced(first, middle, last);
    var parts := [first, "", middle, last];
    assert parts[1..3] == ["", middle];
    EmptyPartInitials(middle);
    var s := first + " " + (Undefined + " " + [middle[0], '.']) + " " + last;
    assert s[0] == first[0] && s[|s| - 1] == last[|last| - 1];
    TrimKeepsClean(s);
  }

  // ---------------------------------------------------------------------
  // filterDataByAuthor
  // ---------------------------------------------------------------------

  /** The five measures of a summary row: commits, files, lines added, removed and in all. */
  datatype Metrics = Metrics(commits: int, files: int, added: int, removed: int, total: int)

  const Zero := Metrics(0, 0, 0, 0, 0)

  function Add(a: Metrics, b: Metrics): Metrics {
    Metrics(a.commits + b.commits, a.files + b.files, a.added + b.added,
            a.removed + b.removed, a.total + b.total)
  }

  /** The row filter of the rollups: at least one measure above zero. */
  predicate AnyPositive(m: Metrics) {
    m.commits > 0 || m.files > 0 || m.added > 0 || m.removed > 0 || m.total > 0
  }

  /** A row of `resumo_autor_ambiente` as the script reads it: author name, environment, date. */
  datatype AuthorEnvRow = AuthorEnvRow(author: string, environment: string, date: string, metrics: Metrics)

  /** A row of `resumo_ambiente`. */
  datatype EnvRow = EnvRow(environment: string, metrics: Metrics)

  /** A row of `totais_diarios` (key: the date) or `totais_mensais` (key: the month). */
  datatype TotalRow = TotalRow(key: string, metrics: Metrics)

  /** The page's data object, one field per table. */
  datatype ChartData = ChartData(
    authorEnv: seq<AuthorEnvRow>,
    environments: seq<EnvRow>,
    daily: seq<TotalRow>,
    monthly: seq<TotalRow>)

  /** The chart a filter belongs to; any other value leaves the data as it is. */
  datatype ChartType = AuthorEnvChart | EnvironmentChart | DailyChart | MonthlyChart | OtherChart

  /** `rows.filter(item => item.nome_autor === author)`. */
  function AuthorRows(rows: seq<AuthorEnvRow>, author: string): (r: seq<AuthorEnvRow>)
    ensures |r| <= |rows|
    ensures forall i :: 0 <= i < |r| ==> r[i].author == author
  {
    if rows == [] then []
    else
      var rest := AuthorRows(rows[..|rows| - 1], author);
      if rows[|rows| - 1].author == author then rest + [rows[|rows| - 1]] else rest
  }

  /** The filter keeps a row exactly when it is the author's. */
  lemma {:induction false} AuthorRowsMembers(rows: seq<AuthorEnvRow>, author: string, x: AuthorEnvRow)
    ensures x in AuthorRows(rows, author) <==> x in rows && x.author == author
  {
    if rows != [] {
      AuthorRowsMembers(rows[..|rows| - 1], author, x);
      assert rows == rows[..|rows| - 1] + [rows[|rows| - 1]];
    }
  }

  /** The filter keeps the order of the rows: it works piece by piece. */
  lemma {:induction false} AuthorRowsConcat(a: seq<AuthorEnvRow>, b: seq<AuthorEnvRow>, author: string)
    ensures AuthorRows(a + b, author) == AuthorRows(a, author) + AuthorRows(b, author)
  {
    if b != [] {
      AuthorRowsConcat(a, b[..|b| - 1], author);
      assert (a + b)[..|a + b| - 1] == a + b[..|b| - 1];
    } else {
      assert a + b == a;
    }
  }

  /** `find(item => item.nome_autor === author && item.ambiente === env)`: the first such row. */
  function FirstRow(rows: seq<AuthorEnvRow>, author: string, env: string): (r: Option<nat>)
    ensures r.Some? ==> r.value < |rows| && rows[r.value].author == author && rows[r.value].environment == env
    ensures r.Some? ==> forall j :: 0 <= j < r.value ==> !(rows[j].author == author && rows[j].environment == env)
    ensures r.None? ==> forall j :: 0 <= j < |rows| ==> !(rows[j].author == author && rows[j].environment == env)
  {
    if rows == [] then None
    else if rows[0].author == author && rows[0].environment == env then Some(0)
    else
      match FirstRow(rows[1..], author, env)
      case None => None
      case Some(j) => Some(j + 1)
  }

  /** The metrics the environment view shows: the author's first row for env, or zeros. */
  function AuthorMetrics(rows: seq<AuthorEnvRow>, author: string, env: string): Metrics {
    match FirstRow(rows, author, env)
    case None => Zero
    case Some(j) => rows[j].metrics
  }

  /** The 'environment' case: every environment row, with the author's figures for it. */
  function EnvironmentView(envs: seq<EnvRow>, rows: seq<AuthorEnvRow>, author: string): (r: seq<EnvRow>)
    ensures |r| == |envs|
    ensures forall i :: 0 <= i < |r| ==>
      r[i].environment == envs[i].environment && r[i].metrics == AuthorMetrics(rows, author, envs[i].environment)
  {
    if envs == [] then []
    else
      [EnvRow(envs[0].environment, AuthorMetrics(rows, author, envs[0].environment))]
      + EnvironmentView(envs[1..], rows, author)
  }

  /** An environment where the author has a single row shows that row's figures; one without shows zeros. */
  lemma EnvironmentViewMetrics(envs: seq<EnvRow>, rows: seq<AuthorEnvRow>, author: string, i: nat, j: nat)
    requires i < |envs| && j < |rows|
    requires rows[j].author == author && rows[j].environment == envs[i].environment
    requires forall k :: 0 <= k < |rows| && k != j ==>
      !(rows[k].author == author && rows[k].environment == envs[i].environment)
    ensures EnvironmentView(envs, rows, author)[i].metrics == rows[j].metrics
  {
  }

  lemma EnvironmentViewAbsent(envs: seq<EnvRow>, rows: seq<AuthorEnvRow>, author: string, i: nat)
    requires i < |envs|
    requires forall k :: 0 <= k < |rows| ==> !(rows[k].author == author && rows[k].environment == envs[i].environment)
    ensures EnvironmentView(envs, rows, author)[i].metrics == Zero
  {
  }

  // ---------------------------------------------------------------------
  // The daily and monthly rollups.
  // ---------------------------------------------------------------------

  /** Strict lexicographic order on strings, character by character. */
  predicate Below(a: string, b: string) {
    if a == [] then b != []
    else if b == [] then false
    else if a[0] != b[0] then a[0] < b[0]
    else Below(a[1..], b[1..])
  }

  lemma {:induction false} BelowIrreflexive(a: string)
    ensures !Below(a, a)
  {
    if a != [] {
      BelowIrreflexive(a[1..]);
    }
  }

  lemma {:induction false} BelowTransitive(a: string, b: string, c: string)
    requires Below(a, b) && Below(b, c)
    ensures Below(a, c)
  {
    if a != [] && b != [] && c != [] && a[0] == b[0] && b[0] == c[0] {
      BelowTransitive(a[1..], b[1..], c[1..]);
    }
  }

  lemma {:induction false} BelowTotal(a: string, b: string)
    requires a != b
    ensures Below(a, b) || Below(b, a)
  {
    if a != [] && b != [] && a[0] == b[0] {
      assert a == [a[0]] + a[1..] && b == [b[0]] + b[1..];
      BelowTotal(a[1..], b[1..]);
    }
  }

  lemma BelowAsymmetric(a: string, b: string)
    requires Below(a, b)
    ensures !Below(b, a)
  {
    if Below(b, a) {
      BelowTransitive(a, b, a);
      BelowIrreflexive(a);
    }
  }

  /** The keys of a table. */
  function RowKeys(rows: seq<TotalRow>): set<string> {
    set i | 0 <= i < |rows| :: rows[i].key
  }

  /** Keys strictly ascending: sorted, and no key twice. */
  predicate Ascending(rows: seq<TotalRow>) {
    forall i, j :: 0 <= i < j < |rows| ==> Below(rows[i].key, rows[j].key)
  }

  predicate DistinctKeys(rows: seq<TotalRow>) {
    forall i, j :: 0 <= i < j < |rows| ==> rows[i].key != rows[j].key
  }

  /** The keys the rows of a rollup are grouped by. */
  function KeysOf(items: seq<AuthorEnvRow>, keyOf: AuthorEnvRow -> string): set<string> {
    if items == [] then {} else KeysOf(items[..|items| - 1], keyOf) + {keyOf(items[|items| - 1])}
  }

  /** The sum of the metrics of the rows whose key is k. */
  function SumFor(items: seq<AuthorEnvRow>, keyOf: AuthorEnvRow -> string, k: string): Metrics {
    if items == [] then Zero
    else
      var last := items[|items| - 1];
      Add(SumFor(items[..|items| - 1], keyOf, k), if keyOf(last) == k then last.metrics else Zero)
  }

  /** A key no row carries sums to zero. */
  lemma {:induction false} SumForAbsent(items: seq<AuthorEnvRow>, keyOf: AuthorEnvRow -> string, k: string)
    requires k !in KeysOf(items, keyOf)
    ensures SumFor(items, keyOf, k) == Zero
  {
    if items != [] {
      SumForAbsent(items[..|items| - 1], keyOf, k);
    }
  }

  /**
   * What the daily and monthly cases compute from the author's rows: one row
   * per key whose sums are not all zero, carrying those sums, in strictly
   * ascending key order.
   */
  predicate IsRollup(rows: seq<TotalRow>, items: seq<AuthorEnvRow>, keyOf: AuthorEnvRow -> string) {
    && Ascending(rows)
    && (forall i :: 0 <= i < |rows| ==>
          rows[i].metrics == SumFor(items, keyOf, rows[i].key) && AnyPositive(rows[i].metrics))
    && RowKeys(rows) <= KeysOf(items, keyOf)
    && (forall k :: k in KeysOf(items, keyOf) && AnyPositive(SumFor(items, keyOf, k)) ==> k in RowKeys(rows))
  }

  /** `t.sort(...)` on keys no two rows share: insert one row into an ascending table. */
  function InsertRow(x: TotalRow, s: seq<TotalRow>): (r: seq<TotalRow>)
    requires Ascending(s) && x.key !in RowKeys(s)
    ensures Ascending(r)
    ensures RowKeys(r) == RowKeys(s) + {x.key}
    ensures forall i :: 0 <= i < |r| ==> r[i] == x || r[i] in s
  {
    if s == [] then
      RowKeysCons(x, s);
      assert [x] + s == [x];
      [x]
    else if Below(x.key, s[0].key) then
      var r := [x] + s;
      forall i, j | 0 <= i < j < |r| ensures Below(r[i].key, r[j].key) {
        if i == 0 && j > 1 {
          BelowTransitive(x.key, s[0].key, s[j - 1].key);
        }
      }
      RowKeysCons(x, s);
      r
    else
      assert x.key != s[0].key;
      BelowTotal(x.key, s[0].key);
      assert RowKeys(s[1..]) <= RowKeys(s) by { RowKeysCons(s[0], s[1..]); assert [s[0]] + s[1..] == s; }
      var rest := InsertRow(x, s[1..]);
      var r := [s[0]] + rest;
      forall i, j | 0 <= i < j < |r| ensures Below(r[i].key, r[j].key) {
        if i == 0 {
          assert r[j] == rest[j - 1];
          if rest[j - 1] != x {
            var k :| 0 <= k < |s[1..]| && s[1..][k] == rest[j - 1];
            assert s[k + 1] == rest[j - 1];
          }
        }
      }
      RowKeysCons(s[0], rest);
      RowKeysCons(s[0], s[1..]);
      assert [s[0]] + s[1..] == s;
      forall i | 0 <= i < |r| ensures r[i] == x || r[i] in s {
        if i > 0 {
          assert r[i] == rest[i - 1];
          if rest[i - 1] != x {
            assert rest[i - 1] in s[1..];
          }
        }
      }
      r
  }

  lemma RowKeysCons(x: TotalRow, s: seq<TotalRow>)
    ensures RowKeys([x] + s) == {x.key} + RowKeys(s)
  {
    var r := [x] + s;
    forall k | k in RowKeys(r) ensures k in {x.key} + RowKeys(s) {
      var i :| 0 <= i < |r| && r[i].key == k;
      if i > 0 {
        assert r[i] == s[i - 1];
      }
    }
    forall k | k in RowKeys(s) ensures k in RowKeys(r) {
      var i :| 0 <= i < |s| && s[i].key == k;
      assert r[i + 1] == s[i];
    }
    assert r[0] == x;
  }

  /** The sort the rollups end with: ascending by key, the same rows. */
  function SortRows(t: seq<TotalRow>): (r: seq<TotalRow>)
    requires DistinctKeys(t)
    ensures Ascending(r)
    ensures RowKeys(r) == RowKeys(t)
    ensures forall i :: 0 <= i < |r| ==> r[i] in t
  {
    if t == [] then []
    else
      var s := SortRows(t[1..]);
      forall i | 0 <= i < |t[1..]| ensures t[1..][i].key != t[0].key {
        assert t[1..][i] == t[i + 1];
      }
      var r := InsertRow(t[0], s);
      RowKeysCons(t[0], t[1..]);
      assert [t[0]] + t[1..] == t;
      forall i | 0 <= i < |r| ensures r[i] in t {
        if r[i] != t[0] {
          var k :| 0 <= k < |s| && s[k] == r[i];
          assert s[k] in t[1..];
        }
      }
      r
  }

  /** Two ascending tables with the same keys list them in the same order. */
  lemma {:induction false} AscendingSameKeys(a: seq<TotalRow>, b: seq<TotalRow>)
    requires Ascending(a) && Ascending(b) && RowKeys(a) == RowKeys(b)
    ensures |a| == |b|
    ensures forall i :: 0 <= i < |a| ==> a[i].key == b[i].key
  {
    if b != [] {
      assert b[0].key in RowKeys(b);
    }
    if a != [] {
      assert a[0].key in RowKeys(a);
      assert b[0].key in RowKeys(b);
      AscendingHead(a, b[0].key);
      AscendingHead(b, a[0].key);
      if a[0].key != b[0].key {
        BelowAsymmetric(a[0].key, b[0].key);
      }
      assert a[0].key == b[0].key;
      var k := a[0].key;
      RowKeysCons(a[0], a[1..]);
      RowKeysCons(b[0], b[1..]);
      assert [a[0]] + a[1..] == a && [b[0]] + b[1..] == b;
      AscendingTailKeys(a);
      AscendingTailKeys(b);
      assert RowKeys(a[1..]) == RowKeys(a) - {k};
      assert RowKeys(b[1..]) == RowKeys(b) - {k};
      AscendingSameKeys(a[1..], b[1..]);
      forall i | 0 <= i < |a| ensures a[i].key == b[i].key {
        if i > 0 {
          assert a[1..][i - 1] == a[i] && b[1..][i - 1] == b[i];
        }
      }
    }
  }

  /** The head key of an ascending table is below every other key of it. */
  lemma AscendingHead(a: seq<TotalRow>, k: string)
    requires Ascending(a) && a != [] && k in RowKeys(a)
    ensures k == a[0].key || Below(a[0].key, k)
  {
    var i :| 0 <= i < |a| && a[i].key == k;
  }

  /** The head key of an ascending table does not come back in its tail. */
  lemma AscendingTailKeys(a: seq<TotalRow>)
    requires Ascending(a) && a != []
    ensures Ascending(a[1..])
    ensures a[0].key !in RowKeys(a[1..])
  {
    BelowIrreflexive(a[0].key);
    forall i | 0 <= i < |a[1..]| ensures a[1..][i].key != a[0].key {
      assert a[1..][i] == a[i + 1];
      assert Below(a[0].key, a[i + 1].key);
    }
    forall i, j | 0 <= i < j < |a[1..]| ensures Below(a[1..][i].key, a[1..][j].key) {
      assert a[1..][i] == a[i + 1] && a[1..][j] == a[j + 1];
    }
  }

  /** The rollup of a list of rows is unique: the reference definition pins the table down. */
  lemma RollupUnique(a: seq<TotalRow>, b: seq<TotalRow>, items: seq<AuthorEnvRow>, keyOf: AuthorEnvRow -> string)
    requires IsRollup(a, items, keyOf) && IsRollup(b, items, keyOf)
    ensures a == b
  {
    forall k | k in RowKeys(a) ensures k in RowKeys(b) {
      var i :| 0 <= i < |a| && a[i].key == k;
    }
    forall k | k in RowKeys(b) ensures k in RowKeys(a) {
      var i :| 0 <= i < |b| && b[i].key == k;
    }
    AscendingSameKeys(a, b);
    forall i | 0 <= i < |a| ensures a[i] == b[i] {
    }
  }

  /** The running sums the rollup loop keeps, keyed by first appearance. */
  ghost predicate Tallied(items: seq<AuthorEnvRow>, keyOf: AuthorEnvRow -> string, order: seq<string>, sums: map<string, Metrics>) {
    && sums.Keys == KeysOf(items, keyOf)
    && (forall k :: k in sums ==> sums[k] == SumFor(items, keyOf, k))
    && (forall k :: k in sums <==> k in order)
    && (forall a, b :: 0 <= a < b < |order| ==> order[a] != order[b])
  }

  /**
   * The daily and monthly cases: fill a Map from key to running sums, one
   * `forEach` step per row, keep the entries with a measure above zero, and
   * sort them by key.
   */
  method Rollup(items: seq<AuthorEnvRow>, keyOf: AuthorEnvRow -> string) returns (rows: seq<TotalRow>)
    ensures IsRollup(rows, items, keyOf)
  {
    var order: seq<string> := [];
    var sums: map<string, Metrics> := map[];
    for i := 0 to |items|
      invariant Tallied(items[..i], keyOf, order, sums)
    {
      order, sums := TallyRow(items[..i], items[i], keyOf, order, sums);
      assert items[..i + 1] == items[..i] + [items[i]];
    }
    assert items[..|items|] == items;
    var kept := KeepPositive(order, sums);
    rows := SortRows(kept);
    forall k | k in KeysOf(items, keyOf) && AnyPositive(SumFor(items, keyOf, k)) ensures k in RowKeys(rows) {
      var m :| 0 <= m < |order| && order[m] == k;
    }
  }

  /** One `forEach` step: a new key starts at zero, then the row's measures are added. */
  method TallyRow(done: seq<AuthorEnvRow>, item: AuthorEnvRow, keyOf: AuthorEnvRow -> string,
                  order: seq<string>, sums: map<string, Metrics>)
    returns (order': seq<string>, sums': map<string, Metrics>)
    requires Tallied(done, keyOf, order, sums)
    ensures Tallied(done + [item], keyOf, order', sums')
  {
    var k := keyOf(item);
    SumsStep(done, item, keyOf, sums);
    order', sums' := order, sums;
    if k !in sums' {
      sums' := sums'[k := Zero];
      order' := order' + [k];
    }
    sums' := sums'[k := Add(sums'[k], item.metrics)];
  }

  /** The running sums after one more row: the row's key gains its measures, the others stay. */
  lemma SumsStep(done: seq<AuthorEnvRow>, item: AuthorEnvRow, keyOf: AuthorEnvRow -> string, sums: map<string, Metrics>)
    requires sums.Keys == KeysOf(done, keyOf)
    requires forall k :: k in sums ==> sums[k] == SumFor(done, keyOf, k)
    ensures var k := keyOf(item);
      var s := sums[k := Add(if k in sums then sums[k] else Zero, item.metrics)];
      && s.Keys == KeysOf(done + [item], keyOf)
      && forall x :: x in s ==> s[x] == SumFor(done + [item], keyOf, x)
  {
    var all := done + [item];
    var k := keyOf(item);
    assert all[..|all| - 1] == done;
    assert all[|all| - 1] == item;
    if k !in sums {
      SumForAbsent(done, keyOf, k);
    }
  }

  /** `Array.from(map.values()).filter(...)`: the entries with a measure above zero, in Map order. */
  method KeepPositive(order: seq<string>, sums: map<string, Metrics>) returns (kept: seq<TotalRow>)
    requires forall k :: k in sums <==> k in order
    requires forall a, b :: 0 <= a < b < |order| ==> order[a] != order[b]
    ensures DistinctKeys(kept)
    ensures forall i :: 0 <= i < |kept| ==>
      kept[i].key in sums && kept[i].metrics == sums[kept[i].key] && AnyPositive(kept[i].metrics)
    ensures forall m :: 0 <= m < |order| && AnyPositive(sums[order[m]]) ==> order[m] in RowKeys(kept)
  {
    kept := [];
    for n := 0 to |order|
      invariant DistinctKeys(kept)
      invariant RowKeys(kept) <= KeysBefore(order, n)
      invariant forall i :: 0 <= i < |kept| ==>
        kept[i].key in sums && kept[i].metrics == sums[kept[i].key] && AnyPositive(kept[i].metrics)
      invariant forall m :: 0 <= m < n && AnyPositive(sums[order[m]]) ==> order[m] in RowKeys(kept)
    {
      var k := order[n];
      KeysBeforeStep(order, n);
      if AnyPositive(sums[k]) {
        var row := TotalRow(k, sums[k]);
        RowKeysSnoc(kept, row);
        DistinctSnoc(kept, row);
        kept := kept + [row];
      }
    }
  }

  /** The keys at the first n places of the order. */
  ghost function KeysBefore(order: seq<string>, n: int): set<string> {
    set m | 0 <= m < n && m < |order| :: order[m]
  }

  /** Moving past place n adds its key, which a duplicate-free order does not hold earlier. */
  lemma KeysBeforeStep(order: seq<string>, n: int)
    requires 0 <= n < |order|
    requires forall a, b :: 0 <= a < b < |order| ==> order[a] != order[b]
    ensures order[n] !in KeysBefore(order, n)
    ensures KeysBefore(order, n + 1) == KeysBefore(order, n) + {order[n]}
  {
  }

  lemma DistinctSnoc(s: seq<TotalRow>, x: TotalRow)
    requires DistinctKeys(s) && x.key !in RowKeys(s)
    ensures DistinctKeys(s + [x])
  {
    var r := s + [x];
    forall i, j | 0 <= i < j < |r| ensures r[i].key != r[j].key {
      assert r[i] == s[i];
      if j < |s| {
        assert r[j] == s[j];
      } else {
        assert s[i].key in RowKeys(s);
      }
    }
  }

  lemma RowKeysSnoc(s: seq<TotalRow>, x: TotalRow)
    ensures RowKeys(s + [x]) == RowKeys(s) + {x.key}
  {
    var r := s + [x];
    assert r[|s|] == x;
    forall k | k in RowKeys(r) ensures k in RowKeys(s) + {x.key} {
      var i :| 0 <= i < |r| && r[i].key == k;
      if i < |s| {
        assert r[i] == s[i];
      }
    }
    forall k | k in RowKeys(s) ensures k in RowKeys(r) {
      var i :| 0 <= i < |s| && s[i].key == k;
      assert r[i] == s[i];
    }
  }

  /** The daily key: the row's date. */
  function DateOf(r: AuthorEnvRow): string {
    r.date
  }

  /** The monthly key: the month of the row's date, as the browser reads it. */
  function MonthKey(monthOf: string -> string): AuthorEnvRow -> string {
    (r: AuthorEnvRow) => monthOf(r.date)
  }

  /**
   * `filterDataByAuthor(data, author, chartType)`: without an author the data
   * is returned as it is; otherwise one table is narrowed to the author,
   * chosen by the chart type, and every other table is left alone.
   */
  method FilterDataByAuthor(data: ChartData, author: string, chartType: ChartType, monthOf: string -> string)
    returns (filtered: ChartData)
    ensures author == [] ==> filtered == data
    ensures author != [] ==> match chartType
      case AuthorEnvChart => filtered == data.(authorEnv := AuthorRows(data.authorEnv, author))
      case EnvironmentChart =>
        filtered == data.(environments := EnvironmentView(data.environments, data.authorEnv, author))
      case DailyChart =>
        filtered == data.(daily := filtered.daily)
        && IsRollup(filtered.daily, AuthorRows(data.authorEnv, author), DateOf)
      case MonthlyChart =>
        filtered == data.(monthly := filtered.monthly)
        && IsRollup(filtered.monthly, AuthorRows(data.authorEnv, author), MonthKey(monthOf))
      case OtherChart => filtered == data
  {
    if author == [] {
      return data;
    }
    filtered := data;
    match chartType {
      case AuthorEnvChart =>
        filtered := filtered.(authorEnv := AuthorRows(data.authorEnv, author));
      case EnvironmentChart =>
        filtered := filtered.(environments := EnvironmentView(data.environments, data.authorEnv, author));
      case DailyChart =>
        var rows := Rollup(AuthorRows(data.authorEnv, author), DateOf);
        filtered := filtered.(daily := rows);
      case MonthlyChart =>
        var rows := Rollup(AuthorRows(data.authorEnv, author), MonthKey(monthOf));
        filtered := filtered.(monthly := rows);
      case OtherChart =>
    }
  }
}

/**
  `MultilineLabel` (src/org/ezze/utils/ui/aboutbox/MultilineLabel.java):
  greedy word wrapping of a label's text into HTML lines no wider than the
  label's maximum width minus its border insets.

  The font enters as its string-width function and the border as its left
  and right insets; everything else about the Swing label is left out.
*/
module MultilineLabel {
  import opened JavaLang

  const DEFAULT_MAXIMUM_WIDTH: int := 200

  const LINE_BREAK: string := "<br />"

  /** `<html><div>` + body + `</div></html>`, the shape `setText` hands to the label. */
  function Html(body: string): string {
    "<html><div>" + body + "</div></html>"
  }

  const EMPTY_HTML: string := Html("")

  // ---------------------------------------------------------------------
  // Joining

  lemma {:induction false} JoinSnoc(parts: seq<string>, x: string, sep: string)
    requires |parts| > 0
    ensures Join(parts + [x], sep) == Join(parts, sep) + sep + x
    decreases |parts|
  {
    if |parts| > 1 {
      JoinSnoc(parts[1..], x, sep);
      assert (parts + [x])[1..] == parts[1..] + [x];
    }
  }

  /** `sep` and a part for each part, concatenated: what follows the first part in a join. */
  function Preceded(parts: seq<string>, sep: string): string {
    if |parts| == 0 then "" else sep + parts[0] + Preceded(parts[1..], sep)
  }

  lemma {:induction false} JoinPreceded(parts: seq<string>, sep: string)
    requires |parts| > 0
    ensures Join(parts, sep) == parts[0] + Preceded(parts[1..], sep)
    decreases |parts|
  {
    if |parts| > 1 {
      JoinPreceded(parts[1..], sep);
      assert parts[1..][1..] == parts[2..];
    }
  }

  // ---------------------------------------------------------------------
  // `String.split(" ")`

  /** Cutting at every space: one more piece than there are spaces. */
  function SplitAtSpaces(s: string): (r: seq<string>)
    ensures |r| > 0
    ensures forall i :: 0 <= i < |r| ==> ' ' !in r[i]
  {
    if |s| == 0 then [""]
    else if s[0] == ' ' then [""] + SplitAtSpaces(s[1..])
    else
      var rest := SplitAtSpaces(s[1..]);
      [[s[0]] + rest[0]] + rest[1..]
  }

  /** Cutting at the spaces and putting the spaces back gives the text. */
  lemma {:induction false} SplitAtSpacesJoin(s: string)
    ensures Join(SplitAtSpaces(s), " ") == s
  {
    if |s| > 0 {
      SplitAtSpacesJoin(s[1..]);
      if s[0] != ' ' {
        var rest := SplitAtSpaces(s[1..]);
        if |rest| > 1 {
          assert ([[s[0]] + rest[0]] + rest[1..])[1..] == rest[1..];
        }
      }
    }
  }

  function DropTrailingEmpty(parts: seq<string>): (r: seq<string>)
    ensures |r| <= |parts| && r == parts[..|r|]
    ensures |r| == 0 || r[|r| - 1] != ""
    ensures forall i :: |r| <= i < |parts| ==> parts[i] == ""
  {
    if |parts| > 0 && parts[|parts| - 1] == "" then DropTrailingEmpty(parts[..|parts| - 1]) else parts
  }

  /**
    `text.split(" ")`: the pieces between spaces with trailing empty pieces
    dropped; a text without any space comes back whole, even when empty.
  */
  function JavaSplit(s: string): (r: seq<string>)
    ensures forall i :: 0 <= i < |r| ==> ' ' !in r[i]
  {
    if ' ' !in s then [s] else DropTrailingEmpty(SplitAtSpaces(s))
  }

  /** Words the way a sentence has them: at least one, none empty, none holding a space. */
  predicate WellSpaced(words: seq<string>) {
    |words| > 0 && forall i :: 0 <= i < |words| ==> words[i] != "" && ' ' !in words[i]
  }

  lemma {:induction false} SplitWord(w: string)
    requires ' ' !in w
    ensures SplitAtSpaces(w) == [w]
  {
    if |w| > 0 {
      SplitWord(w[1..]);
      assert [w[0]] + w[1..] == w;
    }
  }

  lemma {:induction false} SplitWordThenSpace(w: string, t: string)
    requires ' ' !in w
    ensures SplitAtSpaces(w + " " + t) == [w] + SplitAtSpaces(t)
  {
    if |w| == 0 {
      assert w + " " + t == [' '] + t;
      assert (w + " " + t)[1..] == t;
    } else {
      SplitWordThenSpace(w[1..], t);
      assert (w + " " + t)[1..] == w[1..] + " " + t;
      assert [w[0]] + w[1..] == w;
    }
  }

  lemma {:induction false} SplitAtSpacesOfJoin(words: seq<string>)
    requires |words| > 0 && forall i :: 0 <= i < |words| ==> ' ' !in words[i]
    ensures SplitAtSpaces(Join(words, " ")) == words
    decreases |words|
  {
    if |words| == 1 {
      SplitWord(words[0]);
    } else {
      SplitAtSpacesOfJoin(words[1..]);
      SplitWordThenSpace(words[0], Join(words[1..], " "));
      assert [words[0]] + words[1..] == words;
    }
  }

  /** Splitting well-spaced text at its spaces gives its words back. */
  lemma SplitJoin(words: seq<string>)
    requires WellSpaced(words)
    ensures JavaSplit(Join(words, " ")) == words
  {
    SplitAtSpacesOfJoin(words);
    var s := Join(words, " ");
    if ' ' !in s {
      SplitWord(s);
    }
  }

  // ---------------------------------------------------------------------
  // Greedy wrapping

  /** The text before the first space. */
  function FirstWord(s: string): (r: string)
    ensures ' ' !in r && |r| <= |s| && r == s[..|r|]
  {
    if |s| == 0 || s[0] == ' ' then ""
    else
      var rest := FirstWord(s[1..]);
      assert s[..|rest| + 1] == [s[0]] + s[1..][..|rest|];
      [s[0]] + rest
  }

  lemma {:induction false} FirstWordThenSpace(a: string, b: string)
    ensures FirstWord(a + " " + b) == FirstWord(a)
  {
    if |a| > 0 && a[0] != ' ' {
      FirstWordThenSpace(a[1..], b);
      assert (a + " " + b)[1..] == a[1..] + " " + b;
    }
  }

  lemma {:induction false} FirstWordOfWord(w: string)
    requires ' ' !in w
    ensures FirstWord(w) == w
  {
    if |w| > 0 {
      FirstWordOfWord(w[1..]);
    }
  }

  /**
    Every prefix of `line` that ends before a space or at the end of the line
    and joins two or more words fits: the line was measured at each of them
    while it grew.
  */
  predicate PrefixesFit(line: string, fits: string -> bool) {
    forall j :: 0 < j <= |line| && (j == |line| || line[j] == ' ') && ' ' in line[..j] ==> fits(line[..j])
  }

  /** A single word has no prefix joining two words. */
  lemma PrefixesFitWord(word: string, fits: string -> bool)
    requires ' ' !in word
    ensures PrefixesFit(word, fits)
  {
    forall j | 0 < j <= |word| ensures ' ' !in word[..j] {
      assert forall k :: 0 <= k < j ==> word[..j][k] == word[k];
    }
  }

  /** Joining a word that fits keeps every measured prefix fitting. */
  lemma PrefixesFitExtend(current: string, word: string, fits: string -> bool)
    requires current != "" && PrefixesFit(current, fits)
    requires ' ' !in word && fits(current + " " + word)
    ensures PrefixesFit(current + " " + word, fits)
  {
    var joined := current + " " + word;
    forall j | |current| < j < |joined| ensures joined[j] != ' ' {
      assert joined[j] == word[j - |current| - 1];
    }
    forall j | 0 < j <= |joined| && (j == |joined| || joined[j] == ' ') && ' ' in joined[..j]
      ensures fits(joined[..j])
    {
      if j == |joined| {
        assert joined[..j] == joined;
      } else if j == |current| {
        assert joined[..j] == current;
        assert current[..|current|] == current;
      } else {
        assert j < |current|;
        assert joined[j] == current[j];
        assert joined[..j] == current[..j];
      }
    }
  }

  /**
    A line whose two-word prefix was refused cannot be a wrapped line, even
    when the whole line would fit.
  */
  lemma RefusedPrefixBlocksLine()
    ensures !PrefixesFit("a b c", s => s != "a b")
  {
    var line := "a b c";
    assert line[3] == ' ' && line[..3] == "a b" && line[..3][1] == ' ';
  }

  /**
    The `while` loop of `setText` from a given point on: `lines` closed so
    far, `current` the line being filled. A word starts the line when it is
    empty, joins it after one space when the joined line fits, and otherwise
    closes the line and starts the next. The last line is closed unless empty.
  */
  function Greedy(words: seq<string>, fits: string -> bool, lines: seq<string>, current: string): (r: seq<string>)
    ensures |lines| <= |r| && r[..|lines|] == lines
    ensures (forall i :: 0 <= i < |lines| ==> lines[i] != "") ==> forall i :: 0 <= i < |r| ==> r[i] != ""
    ensures (forall i :: 0 <= i < |words| ==> ' ' !in words[i])
         && (forall i :: 0 <= i < |lines| ==> ' ' in lines[i] ==> fits(lines[i]))
         && (' ' in current ==> fits(current))
        ==> forall i :: 0 <= i < |r| ==> ' ' in r[i] ==> fits(r[i])
    ensures (forall i :: 0 <= i < |words| ==> ' ' !in words[i])
         && (forall i :: 0 <= i < |lines| ==> PrefixesFit(lines[i], fits))
         && PrefixesFit(current, fits)
        ==> forall i :: 0 <= i < |r| ==> PrefixesFit(r[i], fits)
    decreases |words|
  {
    if |words| == 0 then
      if current == "" then lines else lines + [current]
    else
      var word := words[0];
      assert forall i :: 0 <= i < |words[1..]| ==> words[1..][i] == words[i + 1];
      var noSpaces := forall i :: 0 <= i < |words| ==> ' ' !in words[i];
      assert noSpaces ==> PrefixesFit(word, fits) by {
        if noSpaces { PrefixesFitWord(word, fits); }
      }
      if current == "" then Greedy(words[1..], fits, lines, word)
      else if fits(current + " " + word) then
        assert noSpaces && PrefixesFit(current, fits) ==> PrefixesFit(current + " " + word, fits) by {
          if noSpaces && PrefixesFit(current, fits) { PrefixesFitExtend(current, word, fits); }
        }
        Greedy(words[1..], fits, lines, current + " " + word)
      else Greedy(words[1..], fits, lines + [current], word)
  }

  /**
    The lines of `setText` for the words of a text: none is empty, and every
    line holding more than one word fits; a word alone on its line is never
    measured.
  */
  function WrapLines(words: seq<string>, fits: string -> bool): (r: seq<string>)
    ensures forall i :: 0 <= i < |r| ==> r[i] != ""
    ensures (forall i :: 0 <= i < |words| ==> ' ' !in words[i]) ==>
      forall i :: 0 <= i < |r| ==> ' ' in r[i] ==> fits(r[i])
    ensures (forall i :: 0 <= i < |words| ==> ' ' !in words[i]) ==>
      forall i :: 0 <= i < |r| ==> PrefixesFit(r[i], fits)
  {
    Greedy(words, fits, [], "")
  }

  /** Adding `" " + word` to the last part adds it to the joined text. */
  lemma JoinExtendLast(lines: seq<string>, current: string, word: string)
    ensures Join(lines + [current + " " + word], " ") == Join(lines + [current], " ") + " " + word
  {
    if |lines| > 0 {
      JoinSnoc(lines, current + " " + word, " ");
      JoinSnoc(lines, current, " ");
    }
  }

  lemma ConcatAssoc(a: string, b: string, c: string, d: string)
    ensures a + b + c + d == a + (b + c + d)
  {
  }

  lemma {:induction false} GreedyKeepsText(words: seq<string>, fits: string -> bool, lines: seq<string>, current: string)
    requires forall i :: 0 <= i < |words| ==> words[i] != ""
    requires current != ""
    ensures Join(Greedy(words, fits, lines, current), " ") == Join(lines + [current], " ") + Preceded(words, " ")
    decreases |words|
  {
    if |words| > 0 {
      var word, rest := words[0], words[1..];
      assert word != "";
      assert forall i :: 0 <= i < |rest| ==> rest[i] == words[i + 1];
      var before := Join(lines + [current], " ");
      var tail := Preceded(rest, " ");
      assert Preceded(words, " ") == " " + word + tail;
      if fits(current + " " + word) {
        var g := Greedy(rest, fits, lines, current + " " + word);
        assert Greedy(words, fits, lines, current) == g;
        GreedyKeepsText(rest, fits, lines, current + " " + word);
        JoinExtendLast(lines, current, word);
        assert Join(g, " ") == before + " " + word + tail;
      } else {
        var g := Greedy(rest, fits, lines + [current], word);
        assert Greedy(words, fits, lines, current) == g;
        GreedyKeepsText(rest, fits, lines + [current], word);
        JoinSnoc(lines + [current], word, " ");
        assert Join(g, " ") == before + " " + word + tail;
      }
      ConcatAssoc(before, " ", word, tail);
    } else {
      assert Greedy(words, fits, lines, current) == lines + [current];
      assert Preceded(words, " ") == "";
    }
  }

  /** Wrapping well-spaced words and joining the lines with spaces gives the words joined with spaces. */
  lemma WrapKeepsText(words: seq<string>, fits: string -> bool)
    requires WellSpaced(words)
    ensures Join(WrapLines(words, fits), " ") == Join(words, " ")
  {
    GreedyKeepsText(words[1..], fits, [], words[0]);
    JoinPreceded(words, " ");
  }

  /** No line could have taken the first word of the next one. */
  ghost predicate Maximal(lines: seq<string>, fits: string -> bool) {
    forall i :: 0 <= i < |lines| - 1 ==> !fits(lines[i] + " " + FirstWord(lines[i + 1]))
  }

  lemma {:induction false} GreedyMaximal(words: seq<string>, fits: string -> bool, lines: seq<string>, current: string)
    requires forall i :: 0 <= i < |words| ==> words[i] != "" && ' ' !in words[i]
    requires current != ""
    requires Maximal(lines, fits)
    requires |lines| > 0 ==> !fits(lines[|lines| - 1] + " " + FirstWord(current))
    ensures Maximal(Greedy(words, fits, lines, current), fits)
    decreases |words|
  {
    if |words| == 0 {
      var r := lines + [current];
      assert forall i :: 0 <= i < |lines| ==> r[i] == lines[i];
    } else {
      var word := words[0];
      if fits(current + " " + word) {
        FirstWordThenSpace(current, word);
        GreedyMaximal(words[1..], fits, lines, current + " " + word);
      } else {
        FirstWordOfWord(word);
        var lines' := lines + [current];
        assert forall i :: 0 <= i < |lines| ==> lines'[i] == lines[i];
        GreedyMaximal(words[1..], fits, lines', word);
      }
    }
  }

  /** Greedy wrapping of well-spaced words leaves no line that the next line's first word would have fitted on. */
  lemma WrapIsMaximal(words: seq<string>, fits: string -> bool)
    requires WellSpaced(words)
    ensures Maximal(WrapLines(words, fits), fits)
  {
    GreedyMaximal(words[1..], fits, [], words[0]);
  }

  lemma {:induction false} GreedyNothingFits(words: seq<string>, fits: string -> bool, lines: seq<string>, current: string)
    requires forall i :: 0 <= i < |words| ==> words[i] != ""
    requires current != ""
    requires forall s :: !fits(s)
    ensures Greedy(words, fits, lines, current) == lines + [current] + words
    decreases |words|
  {
    if |words| > 0 {
      GreedyNothingFits(words[1..], fits, lines + [current], words[0]);
      assert lines + [current] + [words[0]] + words[1..] == lines + [current] + words;
    }
  }

  /** When no two words fit side by side, every word gets a line of its own, however wide. */
  lemma WrapNothingFits(words: seq<string>, fits: string -> bool)
    requires WellSpaced(words)
    requires forall s :: !fits(s)
    ensures WrapLines(words, fits) == words
  {
    GreedyNothingFits(words[1..], fits, [], words[0]);
  }

  // ---------------------------------------------------------------------
  // HTML

  /** The `for` loop of `setText` that puts `<br />` before every line but the first. */
  function HtmlBody(lines: seq<string>, acc: string): string
    decreases |lines|
  {
    if |lines| == 0 then acc
    else HtmlBody(lines[1..], (if acc != "" then acc + LINE_BREAK else acc) + lines[0])
  }

  /** Once something has been written, every further line is preceded by `<br />`. */
  lemma {:induction false} HtmlBodyAfter(lines: seq<string>, acc: string)
    requires acc != ""
    ensures HtmlBody(lines, acc) == acc + Preceded(lines, LINE_BREAK)
    decreases |lines|
  {
    if |lines| > 0 {
      HtmlBodyAfter(lines[1..], acc + LINE_BREAK + lines[0]);
    }
  }

  /** For lines that are never empty the loop joins them with `<br />`. */
  lemma HtmlBodyJoins(lines: seq<string>)
    requires forall i :: 0 <= i < |lines| ==> lines[i] != ""
    ensures HtmlBody(lines, "") == Join(lines, LINE_BREAK)
  {
    if |lines| > 0 {
      assert HtmlBody(lines, "") == HtmlBody(lines[1..], lines[0]) by {
        assert "" + lines[0] == lines[0];
      }
      HtmlBodyAfter(lines[1..], lines[0]);
      JoinPreceded(lines, LINE_BREAK);
    }
  }

  // ---------------------------------------------------------------------
  // The label

  /**
    A multiline label: the text given to the constructor (which `setFont`
    and `setBorder` wrap again), the maximum width, the font's string width,
    the border's left and right insets, and the text the label shows.
  */
  datatype Label = Label(initialText: Option<string>, maximumWidth: int, width: string -> int,
                         left: int, right: int, text: string)

  /** A line fits when its width is at most the maximum width less the insets, in `int` arithmetic. */
  function Fits(l: Label): string -> bool {
    line => l.width(line) <= Wrap32(l.maximumWidth - l.left - l.right)
  }

  /** The lines `setText(text)` shows. */
  function Lines(l: Label, text: string): (r: seq<string>)
    ensures forall i :: 0 <= i < |r| ==> r[i] != ""
  {
    if text == "" then [] else WrapLines(JavaSplit(text), Fits(l))
  }

  /**
    `setText`: `null` changes nothing; otherwise the label shows the lines
    of the text joined by `<br />` inside `<html><div>` … `</div></html>`.
  */
  function SetText(l: Label, text: Option<string>): (r: Label)
    ensures text.None? ==> r == l
    ensures r == l.(text := r.text)
    ensures text.Some? ==> r.text == Html(Join(Lines(l, text.value), LINE_BREAK))
    ensures text == Some("") ==> r.text == EMPTY_HTML
  {
    match text
    case None => l
    case Some(t) =>
      var body := if t == "" then "" else HtmlBody(Lines(l, t), "");
      HtmlBodyJoins(Lines(l, t));
      l.(text := Html(body))
  }

  /**
    `new MultilineLabel(text, maximumWidth)`. Before the constructor body
    runs, the label's own constructor has already shown the empty text
    through the overridden `setText`.
  */
  function Create(text: Option<string>, maximumWidth: int, width: string -> int, left: int, right: int): (r: Label)
    ensures r.initialText == text && r.maximumWidth == maximumWidth
    ensures r.width == width && r.left == left && r.right == right
    ensures text.None? ==> r.text == EMPTY_HTML
    ensures text.Some? ==> r.text == Html(Join(Lines(r, text.value), LINE_BREAK))
  {
    SetText(Label(text, maximumWidth, width, left, right, EMPTY_HTML), text)
  }

  /** `new MultilineLabel(text)`: the default maximum width of 200. */
  function CreateDefault(text: Option<string>, width: string -> int, left: int, right: int): (r: Label)
    ensures r.initialText == text && r.maximumWidth == DEFAULT_MAXIMUM_WIDTH
    ensures r.width == width && r.left == left && r.right == right
    ensures text.None? ==> r.text == EMPTY_HTML
    ensures text.Some? ==> r.text == Html(Join(Lines(r, text.value), LINE_BREAK))
  {
    Create(text, DEFAULT_MAXIMUM_WIDTH, width, left, right)
  }

  /** `new MultilineLabel()`: empty text, default width. */
  function CreateEmpty(width: string -> int, left: int, right: int): (r: Label)
    ensures r.initialText == Some("") && r.maximumWidth == DEFAULT_MAXIMUM_WIDTH
    ensures r.text == EMPTY_HTML
  {
    CreateDefault(Some(""), width, left, right)
  }

  /** `setFont`: a new width function, then the constructor's text wrapped again. */
  function SetFont(l: Label, width: string -> int): (r: Label)
    ensures r.initialText == l.initialText && r.maximumWidth == l.maximumWidth
    ensures r.width == width && r.left == l.left && r.right == l.right
    ensures l.initialText.Some? ==> r.text == Html(Join(Lines(r, l.initialText.value), LINE_BREAK))
    ensures l.initialText.None? ==> r.text == l.text
  {
    SetText(l.(width := width), l.initialText)
  }

  /** `setBorder`: new insets, then the constructor's text wrapped again. */
  function SetBorder(l: Label, left: int, right: int): (r: Label)
    ensures r.initialText == l.initialText && r.maximumWidth == l.maximumWidth
    ensures r.width == l.width && r.left == left && r.right == right
    ensures l.initialText.Some? ==> r.text == Html(Join(Lines(r, l.initialText.value), LINE_BREAK))
    ensures l.initialText.None? ==> r.text == l.text
  {
    SetText(l.(left := left, right := right), l.initialText)
  }

  /** What `setText` shows does not depend on what the label showed before. */
  lemma SetTextIgnoresShown(l: Label, shown: string, text: string)
    ensures SetText(l.(text := shown), Some(text)) == SetText(l, Some(text))
  {
    var l' := l.(text := shown);
    assert Fits(l') == Fits(l);
    assert Lines(l', text) == Lines(l, text);
  }

  /** A font or border change forgets whatever `setText` showed last and shows the constructor's text again. */
  lemma RewrapForgetsSetText(l: Label, text: Option<string>, width: string -> int, left: int, right: int)
    requires l.initialText.Some?
    ensures SetFont(SetText(l, text), width) == SetFont(l, width)
    ensures SetBorder(SetText(l, text), left, right) == SetBorder(l, left, right)
  {
    var l1 := SetText(l, text);
    var initial := l.initialText.value;
    SetTextIgnoresShown(l.(width := width), l1.text, initial);
    assert l1.(width := width) == l.(width := width).(text := l1.text);
    SetTextIgnoresShown(l.(left := left, right := right), l1.text, initial);
    assert l1.(left := left, right := right) == l.(left := left, right := right).(text := l1.text);
  }

  /** The text of well-spaced words comes back, word for word, from the lines the label shows. */
  lemma LinesKeepText(l: Label, words: seq<string>)
    requires WellSpaced(words)
    ensures Join(Lines(l, Join(words, " ")), " ") == Join(words, " ")
  {
    SplitJoin(words);
    WrapKeepsText(words, Fits(l));
    JoinPreceded(words, " ");
  }
}

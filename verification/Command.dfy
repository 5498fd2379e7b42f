/** The command splitter of `do_execute`: a program name and an argument string, against the words of the
    command. */
module Command {
  import opened Words

  const NAME_SIZE := 32
  const ARGS_SIZE := 128

  predicate IsEnd(c: char) {
    c == '\0' || c == '\n'
  }

  // ----- words -----

  /** The first place from `k` on that holds no space. */
  function SkipSpaces(t: string, k: nat): (i: nat)
    requires k <= |t|
    ensures k <= i <= |t|
    decreases |t| - k
  {
    if k < |t| && t[k] == ' ' then SkipSpaces(t, k + 1) else k
  }

  lemma {:induction false} SpacesSkipped(t: string, k: nat)
    requires k <= |t|
    ensures var i := SkipSpaces(t, k); (forall j :: k <= j < i ==> t[j] == ' ') && (i < |t| ==> t[i] != ' ')
    decreases |t| - k
  {
    if k < |t| && t[k] == ' ' {
      SpacesSkipped(t, k + 1);
    }
  }

  /** The first place that holds a space. */
  function WordEnd(t: string): (n: nat)
    ensures n <= |t| && ' ' !in t[..n] && (n < |t| ==> t[n] == ' ')
    ensures t != "" && t[0] != ' ' ==> n > 0
  {
    if t == "" || t[0] == ' ' then 0 else WordEnd(t[1..]) + 1
  }

  function WordsOf(t: string): seq<string> {
    if t == "" then []
    else if t[0] == ' ' then WordsOf(t[1..])
    else [t[..WordEnd(t)]] + WordsOf(t[WordEnd(t)..])
  }

  /** Words separated by single spaces. */
  function Join(ws: seq<string>): string {
    if ws == [] then ""
    else if |ws| == 1 then ws[0]
    else ws[0] + " " + Join(ws[1..])
  }

  function First(ws: seq<string>): string {
    if ws == [] then "" else ws[0]
  }

  function Rest(ws: seq<string>): seq<string> {
    if ws == [] then [] else ws[1..]
  }

  predicate Leading(t: string) {
    t != "" && t[0] == ' '
  }

  predicate Trailing(t: string) {
    t != "" && t[|t| - 1] == ' '
  }

  predicate IsWord(w: string) {
    w != "" && ' ' !in w
  }

  ghost predicate NoEnd(t: string) {
    forall x <- t :: !IsEnd(x)
  }

  /** A word, and the words from `i` on when only spaces lie in between. */
  lemma {:induction false} WordsAfterSpaces(t: string, n: nat, i: nat)
    requires n <= i <= |t| && forall j :: n <= j < i ==> t[j] == ' '
    ensures WordsOf(t[n..]) == WordsOf(t[i..])
    decreases i - n
  {
    if n < i {
      assert t[n..][1..] == t[n + 1..];
      WordsAfterSpaces(t, n + 1, i);
    }
  }

  lemma {:induction false} WordsAreWords(t: string)
    ensures forall w <- WordsOf(t) :: IsWord(w) && (NoEnd(t) ==> NoEnd(w))
    decreases |t|
  {
    if t != "" {
      if t[0] == ' ' {
        WordsAreWords(t[1..]);
      } else {
        WordsAreWords(t[WordEnd(t)..]);
      }
    }
  }

  lemma {:induction false} WordEndIs(w: string, t: string)
    requires ' ' !in w && (t == "" || t[0] == ' ')
    ensures WordEnd(w + t) == |w|
  {
    if w == "" {
      assert w + t == t;
    } else {
      assert (w + t)[1..] == w[1..] + t;
      WordEndIs(w[1..], t);
    }
  }

  /** Joining words with single spaces loses nothing. */
  lemma {:induction false} WordsOfJoin(ws: seq<string>)
    requires forall w <- ws :: IsWord(w)
    ensures WordsOf(Join(ws)) == ws
    decreases |ws|
  {
    if ws != [] {
      assert ws[0] in ws;
      var w, t := ws[0], if |ws| == 1 then "" else " " + Join(ws[1..]);
      assert Join(ws) == w + t;
      WordEndIs(w, t);
      assert (w + t)[..|w|] == w && (w + t)[|w|..] == t;
      WordsOfJoin(ws[1..]);
      if |ws| > 1 {
        assert t[1..] == Join(ws[1..]);
      } else {
        assert ws == [w];
      }
    }
  }

  lemma NoEndCat(s: string, t: string)
    requires NoEnd(s) && NoEnd(t)
    ensures NoEnd(s + t)
  {
  }

  /** A joined command has no space at either end and no terminator. */
  lemma {:induction false} JoinIsClean(ws: seq<string>)
    requires forall w <- ws :: IsWord(w) && NoEnd(w)
    ensures NoEnd(Join(ws)) && !Leading(Join(ws)) && !Trailing(Join(ws))
    ensures ws != [] ==> Join(ws) != ""
    decreases |ws|
  {
    if ws != [] {
      assert ws[0] in ws;
      assert ' ' !in ws[0];
      JoinIsClean(ws[1..]);
      if |ws| > 1 {
        NoEndCat(ws[0], " ");
        NoEndCat(ws[0] + " ", Join(ws[1..]));
      }
    }
  }

  // ----- what the splitter does -----

  datatype Buffers = Buffers(name: string, args: string)

  /** The loop of `do_execute` from place `k` of the memory that holds the command: a run of spaces ends the
      name, or becomes one space among the arguments, and the character after it is copied unseen.  None
      when the loop leaves this memory. */
  function Scan(c: string, k: nat, name: string, args: string, gotName: bool): Option<Buffers>
    requires k <= |c|
    decreases |c| - k
  {
    if k == |c| then None
    else if IsEnd(c[k]) then Some(Buffers(name, args))
    else
      var i := SkipSpaces(c, k);
      if i == |c| then None
      else if i != k then Scan(c, i + 1, name, (if gotName then args + " " else args) + [c[i]], true)
      else if gotName then Scan(c, k + 1, name, args + [c[k]], true)
      else Scan(c, k + 1, name + [c[k]], args, false)
  }

  function Split(c: string): Option<Buffers> {
    Scan(c, 0, "", "", false)
  }

  lemma {:induction false} ScanExtends(c: string, k: nat, name: string, args: string, gotName: bool)
    requires k <= |c| && Scan(c, k, name, args, gotName).Some?
    ensures var r := Scan(c, k, name, args, gotName).value;
            name <= r.name && args <= r.args && (gotName ==> r.name == name)
    decreases |c| - k
  {
    if !IsEnd(c[k]) {
      var i := SkipSpaces(c, k);
      if i != k {
        ScanExtends(c, i + 1, name, (if gotName then args + " " else args) + [c[i]], true);
      } else if gotName {
        ScanExtends(c, k + 1, name, args + [c[k]], true);
      } else {
        ScanExtends(c, k + 1, name + [c[k]], args, false);
      }
    }
  }

  /** The text `u` stands in memory at `k`. */
  predicate At(c: string, k: nat, u: string) {
    k + |u| <= |c| && c[k..k + |u|] == u
  }

  lemma AtPart(c: string, k: nat, u: string, i: nat, j: nat)
    requires At(c, k, u) && i <= j <= |u|
    ensures At(c, k + i, u[i..j])
  {
    forall m | 0 <= m < j - i ensures c[k + i..k + j][m] == u[i..j][m] {
      assert u[i + m] == c[k..k + |u|][i + m];
    }
    assert |c[k + i..k + i + |u[i..j]|]| == j - i;
  }

  /** Characters that are neither spaces nor terminators are copied. */
  lemma {:induction false} ScanWord(c: string, k: nat, w: string, name: string, args: string, gotName: bool)
    requires At(c, k, w) && NoEnd(w) && ' ' !in w
    ensures Scan(c, k, name, args, gotName) ==
            if gotName then Scan(c, k + |w|, name, args + w, true) else Scan(c, k + |w|, name + w, args, false)
    decreases |w|
  {
    if w == "" {
      assert args + w == args && name + w == name;
    } else {
      var v := w[1..];
      AtPart(c, k, w, 1, |w|);
      assert c[k] == c[k..k + |w|][0] && v == w[1..|w|];
      assert SkipSpaces(c, k) == k;
      if gotName {
        ScanWord(c, k + 1, v, name, args + [w[0]], true);
        assert args + [w[0]] + v == args + w;
      } else {
        ScanWord(c, k + 1, v, name + [w[0]], args, false);
        assert name + [w[0]] + v == name + w;
      }
    }
  }

  lemma {:induction false} SkipSpacesIs(t: string, k: nat, i: nat)
    requires k <= i <= |t| && (forall j :: k <= j < i ==> t[j] == ' ') && (i < |t| ==> t[i] != ' ')
    ensures SkipSpaces(t, k) == i
    decreases i - k
  {
    if k < i {
      SkipSpacesIs(t, k + 1, i);
    }
  }

  /** A gap between words ends the name, or adds one space to the arguments. */
  lemma ScanGap(c: string, k: nat, i: nat, name: string, args: string, gotName: bool)
    requires k < i < |c| && (forall j :: k <= j < i ==> c[j] == ' ') && c[i] != ' '
    ensures Scan(c, k, name, args, gotName) == Scan(c, i + 1, name, (if gotName then args + " " else args) + [c[i]], true)
    ensures !IsEnd(c[i]) ==>
              Scan(c, k, name, args, gotName) == Scan(c, i, name, if gotName then args + " " else args, true)
  {
    SkipSpacesIs(c, k, i);
    SkipSpacesIs(c, i, i);
  }

  /** The first word of a text, and where the next one begins. */
  lemma FirstWord(u: string) returns (n: nat, i: nat)
    requires u != "" && !Leading(u) && !Trailing(u)
    ensures 0 < n <= |u| && ' ' !in u[..n]
    ensures n == |u| ==> WordsOf(u) == [u]
    ensures n < |u| ==> n < i < |u| && u[i] != ' ' && forall j :: n <= j < i ==> u[j] == ' '
    ensures n < |u| ==> WordsOf(u) == [u[..n]] + WordsOf(u[i..]) && WordsOf(u[i..]) != []
  {
    n := WordEnd(u);
    i := SkipSpaces(u, n);
    SpacesSkipped(u, n);
    if n == |u| {
      assert u[..n] == u && u[n..] == "";
      assert WordsOf("") == [];
    } else {
      WordsAfterSpaces(u, n, i);
    }
  }

  lemma GapAt(c: string, k: nat, u: string, n: nat, i: nat)
    requires At(c, k, u) && NoEnd(u) && n < i < |u| && (forall j :: n <= j < i ==> u[j] == ' ') && u[i] != ' '
    ensures (forall j :: k + n <= j < k + i ==> c[j] == ' ') && c[k + i] != ' ' && !IsEnd(c[k + i])
  {
    assert u[i] in u;
    forall j | k + n <= j < k + i ensures c[j] == ' ' {
      assert u[j - k] == ' ';
    }
  }

  ghost predicate WordAndGap(u: string, n: nat, i: nat) {
    && n < i < |u| && ' ' !in u[..n] && NoEnd(u)
    && (forall j :: n <= j < i ==> u[j] == ' ') && u[i] != ' '
  }

  /** A word of the arguments, and the gap after it. */
  lemma ScanWordAndGap(c: string, k: nat, u: string, n: nat, i: nat, name: string, args: string)
    requires At(c, k, u) && WordAndGap(u, n, i)
    ensures Scan(c, k, name, args, true) == Scan(c, k + i, name, args + u[..n] + " ", true)
  {
    hide Scan;
    var w := u[..n];
    assert At(c, k, w) && NoEnd(w) by {
      AtPart(c, k, u, 0, n);
    }
    GapAt(c, k, u, n, i);
    ScanWord(c, k, w, name, args, true);
    ScanGap(c, k + n, k + i, name, args + w, true);
  }

  /** The name, and the gap after it. */
  lemma ScanNameAndGap(c: string, u: string, n: nat, i: nat)
    requires At(c, 0, u) && WordAndGap(u, n, i)
    ensures Split(c) == Scan(c, i, u[..n], "", true)
  {
    hide Scan;
    var w := u[..n];
    assert At(c, 0, w) && NoEnd(w) by {
      AtPart(c, 0, u, 0, n);
    }
    GapAt(c, 0, u, n, i);
    ScanWord(c, 0, w, "", "", false);
    assert "" + w == w;
    ScanGap(c, n, i, w, "", false);
  }

  lemma JoinCons(args: string, w: string, ws: seq<string>)
    requires ws != []
    ensures args + w + " " + Join(ws) == args + Join([w] + ws)
  {
    assert ([w] + ws)[1..] == ws;
    assert args + w + " " + Join(ws) == args + (w + " " + Join(ws));
  }

  lemma TailAt(c: string, k: nat, u: string, i: nat)
    requires At(c, k, u) && NoEnd(u) && i < |u| && u[i] != ' ' && !Trailing(u)
    ensures var v := u[i..]; At(c, k + i, v) && v != "" && NoEnd(v) && !Leading(v) && !Trailing(v)
  {
    AtPart(c, k, u, i, |u|);
    assert u[i..|u|] == u[i..];
  }

  /** Once the name is complete, text between words becomes its words joined by single spaces. */
  lemma {:induction false} ScanArgs(c: string, k: nat, u: string, name: string, args: string)
    requires At(c, k, u) && NoEnd(u) && u != "" && !Leading(u) && !Trailing(u)
    ensures Scan(c, k, name, args, true) == Scan(c, k + |u|, name, args + Join(WordsOf(u)), true)
    decreases |u|
  {
    hide Scan, WordsOf, Join;
    var n, i := FirstWord(u);
    if n == |u| {
      OneWord(u);
      ScanWord(c, k, u, name, args, true);
    } else {
      var w, v := u[..n], u[i..];
      TailAt(c, k, u, i);
      JoinCons(args, w, WordsOf(v));
      ScanWordAndGap(c, k, u, n, i, name, args);
      ScanArgs(c, k + i, v, name, args + w + " ");
    }
  }

  lemma OneWord(u: string)
    requires ' ' !in u[..|u|]
    ensures ' ' !in u && Join([u]) == u
  {
    assert u[..|u|] == u;
  }

  /** A string buffer as C reads it. */
  function CString(s: string): string {
    if s == "" || s[0] == '\0' then "" else [s[0]] + CString(s[1..])
  }

  lemma {:induction false} CStringPrefix(p: string, s: string)
    requires p <= s && '\0' !in p
    ensures CString(s) == p + CString(s[|p|..])
  {
    if p != "" {
      assert p[1..] <= s[1..];
      CStringPrefix(p[1..], s[1..]);
      assert s[1..][|p| - 1..] == s[|p|..];
    } else {
      assert s[0..] == s;
    }
  }

  // ----- the commands the splitter gets right -----

  /** The command in memory `c` is `text`, up to its terminator. */
  ghost predicate Holds(c: string, text: string) {
    At(c, 0, text) && |text| < |c| && IsEnd(c[|text|]) && NoEnd(text)
  }

  /** Text without spaces at either end: the name is the first word, and the arguments are the other words
      joined by single spaces. */
  lemma CleanSplit(c: string, text: string)
    requires Holds(c, text) && !Leading(text) && !Trailing(text)
    ensures Split(c) == Some(Buffers(First(WordsOf(text)), Join(Rest(WordsOf(text)))))
  {
    if text != "" {
      AfterName(c, text);
    }
  }

  /** The scan of text that begins and ends with a word. */
  lemma AfterName(c: string, text: string)
    requires At(c, 0, text) && NoEnd(text) && text != "" && !Leading(text) && !Trailing(text)
    ensures var ws := WordsOf(text);
            ws != [] && Split(c) == Scan(c, |text|, ws[0], Join(ws[1..]), |ws| > 1)
  {
    var n, i := FirstWord(text);
    if n == |text| {
      OneWord(text);
      assert "" + text == text;
      ScanWord(c, 0, text, "", "", false);
    } else {
      AfterLongName(c, text, n, i);
      FromEmpty(text[..n], WordsOf(text[i..]));
    }
  }

  lemma AfterLongName(c: string, text: string, n: nat, i: nat)
    requires At(c, 0, text) && WordAndGap(text, n, i) && !Trailing(text)
    ensures Split(c) == Scan(c, |text|, text[..n], "" + Join(WordsOf(text[i..])), true)
  {
    var w, v := text[..n], text[i..];
    assert At(c, i, v) && v != "" && NoEnd(v) && !Leading(v) && !Trailing(v) by {
      TailAt(c, 0, text, i);
    }
    assert Split(c) == Scan(c, i, w, "", true) by {
      ScanNameAndGap(c, text, n, i);
    }
    ScanArgs(c, i, v, w, "");
  }

  lemma FromEmpty(w: string, ws: seq<string>)
    ensures "" + Join(ws) == Join(([w] + ws)[1..])
  {
    assert ([w] + ws)[1..] == ws;
  }

  /** What a caller sees in the two buffers is the first word and the joined rest. */
  predicate Right(r: Buffers, text: string) {
    && CString(r.name) == First(WordsOf(text))
    && CString(r.args) == Join(Rest(WordsOf(text)))
  }

  lemma {:induction false} CStringSame(s: string)
    requires '\0' !in s
    ensures CString(s) == s
  {
    CStringPrefix(s, s);
    assert s[|s|..] == "";
    assert s + "" == s;
  }

  lemma {:induction false} WordsOfSpaces(t: string)
    requires forall j :: 0 <= j < |t| ==> t[j] == ' '
    ensures WordsOf(t) == []
  {
    WordsAfterSpaces(t, 0, |t|);
    assert t[0..] == t;
  }

  /** Spaces after the text add no words. */
  lemma {:induction false} WordsBeforeSpaces(t: string, p: nat)
    requires p <= |t| && (forall j :: p <= j < |t| ==> t[j] == ' ')
    ensures WordsOf(t) == WordsOf(t[..p])
    decreases |t|
  {
    if p == 0 {
      WordsOfSpaces(t);
    } else if t[0] == ' ' {
      WordsBeforeSpaces(t[1..], p - 1);
      assert t[1..][..p - 1] == t[..p][1..];
    } else {
      var n := WordEnd(t);
      WordEndWithin(t, p);
      WordsBeforeSpaces(t[n..], p - n);
      assert t[n..][..p - n] == t[..p][n..] && t[..p][..n] == t[..n];
    }
  }

  lemma {:induction false} WordEndWithin(t: string, p: nat)
    requires p <= |t| && (forall j :: p <= j < |t| ==> t[j] == ' ')
    ensures WordEnd(t) <= p && WordEnd(t[..p]) == WordEnd(t)
  {
    if p > 0 && t[0] != ' ' {
      WordEndWithin(t[1..], p - 1);
      assert t[1..][..p - 1] == t[..p][1..];
    }
  }

  /** Where the text without its trailing spaces ends. */
  function Trimmed(t: string): (p: nat)
    ensures p <= |t| && (p == |t| <==> !Trailing(t))
    ensures (p > 0 ==> t[p - 1] != ' ') && forall j :: p <= j < |t| ==> t[j] == ' '
  {
    if Trailing(t) then Trimmed(t[..|t| - 1]) else |t|
  }

  /** Only spaces: the terminator is copied into the arguments. */
  lemma BlankSplit(c: string, text: string)
    requires Holds(c, text) && Split(c).Some? && text != "" && forall j :: 0 <= j < |text| ==> text[j] == ' '
    ensures Right(Split(c).value, text) <==> c[|text|] == '\0'
  {
    SpacesAt(c, text, 0);
    ScanGap(c, 0, |text|, "", "", false);
    ScanExtends(c, |text| + 1, "", "" + [c[|text|]], true);
    WordsOfSpaces(text);
  }

  lemma SpacesAt(c: string, text: string, p: nat)
    requires Holds(c, text) && p <= |text| && forall j :: p <= j < |text| ==> text[j] == ' '
    ensures forall j :: p <= j < |text| ==> c[j] == ' '
  {
    assert forall j :: p <= j < |text| ==> c[..|text|][j] == text[j];
  }

  /** Spaces before the first word: the name comes out empty. */
  lemma LeadingSplit(c: string, text: string)
    requires Holds(c, text) && Split(c).Some? && Leading(text) && WordsOf(text) != []
    ensures !Right(Split(c).value, text)
  {
    var i := SkipSpaces(text, 0);
    SpacesSkipped(text, 0);
    if i == |text| {
      WordsOfSpaces(text);
      assert false;
    } else {
      assert text[i] in text && c[i] == c[..|text|][i];
      forall j | 0 <= j < i ensures c[j] == ' ' {
        assert c[j] == c[..|text|][j];
      }
      ScanGap(c, 0, i, "", "", false);
      ScanExtends(c, i, "", "", true);
      WordsAreWords(text);
      assert WordsOf(text)[0] in WordsOf(text);
    }
  }

  /** Spaces after the last word: the arguments go on with the terminator, after a space if there are any. */
  lemma TrailingScan(c: string, text: string)
    requires Holds(c, text) && Split(c).Some? && !Leading(text) && Trailing(text)
    ensures var ws, r := WordsOf(text), Split(c).value;
            && ws != [] && r.name == ws[0]
            && (if |ws| > 1 then Join(ws[1..]) + " " else Join(ws[1..])) + [c[|text|]] <= r.args
  {
    hide Scan, WordsOf, Join;
    var p := Trimmed(text);
    var core := text[..p];
    assert core != "" && !Leading(core) && !Trailing(core) && NoEnd(core);
    WordsBeforeSpaces(text, p);
    AtPart(c, 0, text, 0, p);
    AfterName(c, core);
    SpacesAt(c, text, p);
    var ws := WordsOf(text);
    ScanGap(c, p, |text|, ws[0], Join(ws[1..]), |ws| > 1);
    ScanExtends(c, |text| + 1, ws[0], (if |ws| > 1 then Join(ws[1..]) + " " else Join(ws[1..])) + [c[|text|]], true);
  }

  lemma TrailingSplit(c: string, text: string)
    requires Holds(c, text) && Split(c).Some? && !Leading(text) && Trailing(text)
    ensures Right(Split(c).value, text) <==> c[|text|] == '\0' && |WordsOf(text)| == 1
  {
    TrailingScan(c, text);
    var ws, r := WordsOf(text), Split(c).value;
    WordsAreWords(text);
    assert ws[0] in ws;
    CStringSame(ws[0]);
    var joined := Join(ws[1..]);
    JoinIsClean(ws[1..]);
    if |ws| > 1 {
      var p := joined + " ";
      assert p + [c[|text|]] <= r.args;
      CStringPrefix(p, r.args);
    } else {
      assert joined == "" && [c[|text|]] <= r.args;
    }
  }

  /** The caller gets the first word and the joined rest exactly when there is no space before the first
      word, and no space after the last one unless the terminator is NUL and there are no arguments. */
  lemma SplitExact(c: string, text: string)
    requires Holds(c, text) && Split(c).Some?
    ensures Right(Split(c).value, text) <==>
            && (Leading(text) ==> WordsOf(text) == [])
            && (Trailing(text) ==> c[|text|] == '\0' && |WordsOf(text)| <= 1)
  {
    var ws := WordsOf(text);
    if !Leading(text) && !Trailing(text) {
      CleanSplit(c, text);
      CleanIsRight(text);
    } else if !Leading(text) {
      TrailingSplit(c, text);
    } else if ws != [] {
      LeadingSplit(c, text);
    } else {
      NoWords(text);
      BlankSplit(c, text);
    }
  }

  lemma CleanIsRight(text: string)
    requires NoEnd(text)
    ensures Right(Buffers(First(WordsOf(text)), Join(Rest(WordsOf(text)))), text)
  {
    var ws := WordsOf(text);
    WordsAreWords(text);
    if ws != [] {
      assert ws[0] in ws;
      CStringSame(ws[0]);
      JoinIsClean(ws[1..]);
      CStringSame(Join(ws[1..]));
    }
  }

  lemma {:induction false} NoWords(text: string)
    requires WordsOf(text) == []
    ensures forall j :: 0 <= j < |text| ==> text[j] == ' '
    decreases |text|
  {
    if text != "" {
      NoWords(text[1..]);
      assert forall j :: 1 <= j < |text| ==> text[j] == text[1..][j - 1];
    }
  }

  function Rejoin(r: Buffers): string {
    if r.args == "" then r.name else r.name + " " + r.args
  }

  /** Splitting the name and the arguments, put together again, gives the same name and arguments. */
  lemma SplitAgain(c: string, text: string, again: string)
    requires Holds(c, text) && !Leading(text) && !Trailing(text)
    requires Split(c).Some? && Holds(again, Rejoin(Split(c).value))
    ensures Split(again) == Split(c)
  {
    CleanSplit(c, text);
    var ws := WordsOf(text);
    WordsAreWords(text);
    assert forall w <- Rest(ws) :: w in ws;
    RejoinIsJoin(ws);
    JoinIsClean(ws);
    WordsOfJoin(ws);
    CleanSplit(again, Join(ws));
  }

  lemma RejoinIsJoin(ws: seq<string>)
    requires forall w <- ws :: IsWord(w)
    ensures Rejoin(Buffers(First(ws), Join(Rest(ws)))) == Join(ws)
  {
    if |ws| > 1 {
      assert ws[1] in ws && Join(ws[1..]) != "";
    }
  }

  // ----- the code -----

  function Nuls(n: nat): string {
    seq(n, _ => '\0')
  }

  /** `a[i++] = c` on a buffer that holds a string so far. */
  method Put(a: array<char>, i: nat, c: char) returns (next: nat)
    requires i < a.Length < 256
    modifies a
    ensures next == i + 1 && a[..next] == old(a[..i]) + [c]
  {
    a[i] := c;
    next := (i + 1) % 256;
  }

  /** The inner loop: to the last space of a run, and past it. */
  method SkipRun(command: string, k: nat) returns (i: nat)
    requires k <= |command| && SkipSpaces(command, k) < |command|
    ensures i == SkipSpaces(command, k)
  {
    i := k;
    while command[i] == ' '
      invariant k <= i < |command| && SkipSpaces(command, i) == SkipSpaces(command, k)
      decreases |command| - i
    {
      i := i + 1;
    }
  }

  /** Fills the name buffer with NULs. */
  method FillName(programName: array<char>, from: nat, ghost name: string)
    requires programName.Length == NAME_SIZE && |name| <= from <= NAME_SIZE
    requires programName[..from] == name + Nuls(from - |name|)
    modifies programName
    ensures programName[..] == name + Nuls(NAME_SIZE - |name|)
  {
    for i := from to NAME_SIZE
      invariant programName[..i] == name + Nuls(i - |name|)
    {
      programName[i] := '\0';
    }
  }

  /** The splitter of `do_execute`, on a command whose scan stays within the 256 bytes its one-byte index can
      reach and whose parts fit their buffers. */
  method SplitCommand(command: string, programName: array<char>, argsBuffer: array<char>)
    requires |command| <= 256 && programName.Length == NAME_SIZE && argsBuffer.Length == ARGS_SIZE
    requires programName != argsBuffer && Split(command).Some?
    requires |Split(command).value.name| < NAME_SIZE && |Split(command).value.args| < ARGS_SIZE
    modifies programName, argsBuffer
    ensures var r := Split(command).value;
            && programName[..] == r.name + Nuls(NAME_SIZE - |r.name|)
            && argsBuffer[..|r.args| + 1] == r.args + ['\0']
            && forall j :: |r.name| <= j < NAME_SIZE ==> programName[j] == '\0'
  {
    var commandBufferIndex: nat, argsBufferIndex: nat, pgmNameIndex: nat, gotProgramName := 0, 0, 0, false;
    ghost var name, args, r := "", "", Split(command);
    while !IsEnd(command[commandBufferIndex])
      invariant commandBufferIndex < |command| && Scan(command, commandBufferIndex, name, args, gotProgramName) == r
      invariant |name| <= pgmNameIndex <= |name| + 1 && (gotProgramName || pgmNameIndex == |name|)
      invariant pgmNameIndex <= NAME_SIZE && programName[..pgmNameIndex] == name + Nuls(pgmNameIndex - |name|)
      invariant argsBufferIndex == |args| < ARGS_SIZE && argsBuffer[..argsBufferIndex] == args
      decreases |command| - commandBufferIndex
    {
      hide Scan, SkipSpaces;
      ScanFits(command, commandBufferIndex, name, args, gotProgramName);
      var i := SkipRun(command, commandBufferIndex);
      if i != commandBufferIndex {
        if gotProgramName {
          argsBufferIndex := Put(argsBuffer, argsBufferIndex, ' ');
          args := args + " ";
        } else {
          gotProgramName := true;
          pgmNameIndex := Put(programName, pgmNameIndex, '\0');
        }
        commandBufferIndex := i % 256;
      }
      if gotProgramName {
        argsBufferIndex := Put(argsBuffer, argsBufferIndex, command[commandBufferIndex]);
        args := args + [command[commandBufferIndex]];
      } else {
        pgmNameIndex := Put(programName, pgmNameIndex, command[commandBufferIndex]);
        name := name + [command[commandBufferIndex]];
      }
      commandBufferIndex := (commandBufferIndex + 1) % 256;
    }
    argsBufferIndex := Put(argsBuffer, argsBufferIndex, '\0');
    FillName(programName, pgmNameIndex, name);
  }

  /** One turn of the loop stays within the memory, and what it writes is part of the result. */
  lemma ScanFits(c: string, k: nat, name: string, args: string, gotName: bool)
    requires k < |c| && !IsEnd(c[k]) && Scan(c, k, name, args, gotName).Some?
    ensures var i, r := SkipSpaces(c, k), Scan(c, k, name, args, gotName).value;
            && i < |c| && i + 1 < |c|
            && (i != k && gotName ==> |args| + 2 <= |r.args|)
            && (i != k && !gotName ==> |args| + 1 <= |r.args| && |name| <= |r.name|)
            && (i == k && gotName ==> |args| + 1 <= |r.args|)
            && (i == k && !gotName ==> |name| + 1 <= |r.name| && |args| <= |r.args|)
            && Scan(c, k, name, args, gotName) ==
               if i != k then Scan(c, i + 1, name, (if gotName then args + " " else args) + [c[i]], true)
               else if gotName then Scan(c, k + 1, name, args + [c[k]], true)
               else Scan(c, k + 1, name + [c[k]], args, false)
  {
    var i := SkipSpaces(c, k);
    if i != k {
      ScanExtends(c, i + 1, name, (if gotName then args + " " else args) + [c[i]], true);
    } else if gotName {
      ScanExtends(c, k + 1, name, args + [c[k]], true);
    } else {
      ScanExtends(c, k + 1, name + [c[k]], args, false);
    }
  }
}

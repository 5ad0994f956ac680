/** The piece of ECMAScript string behaviour the result summary relies on:
    `text.split(/\s+/)`, whose length the page shows as "Total words". */
module JsText {

  /** The characters `\s` matches in an ECMAScript regular expression: the
      WhiteSpace code points (tab, vertical tab, form feed, space, no-break space,
      byte order mark and the Unicode space separators) and the LineTerminator
      code points (line feed, carriage return, line and paragraph separator). */
  predicate IsWs(c: char) {
    var n := c as int;
    || n == 0x09 || n == 0x0A || n == 0x0B || n == 0x0C || n == 0x0D || n == 0x20
    || n == 0xA0 || n == 0x1680 || (0x2000 <= n <= 0x200A)
    || n == 0x2028 || n == 0x2029 || n == 0x202F || n == 0x205F
    || n == 0x3000 || n == 0xFEFF
  }

  /** `w` holds no whitespace character. */
  predicate NoWs(w: string) {
    forall k :: 0 <= k < |w| ==> !IsWs(w[k])
  }

  /** The scan behind `s.split(/\s+/)`. `cur` is the piece being built and
      `inRun` says whether the scan is inside a whitespace run. The first
      whitespace character of a run ends the current piece; later characters of
      the run are skipped; any other character extends the current piece; the
      end of the text ends the last piece. */
  function SplitScan(s: string, cur: string, inRun: bool): (pieces: seq<string>)
    requires NoWs(cur)
    ensures |pieces| >= 1
    ensures forall i :: 0 <= i < |pieces| ==> NoWs(pieces[i])
    decreases |s|
  {
    if s == [] then [cur]
    else if IsWs(s[0]) then
      if inRun then SplitScan(s[1..], cur, true) else [cur] + SplitScan(s[1..], [], true)
    else SplitScan(s[1..], cur + [s[0]], false)
  }

  /** `s.split(/\s+/)`: the regular expression matches each maximal whitespace
      run, and the pieces are the text between consecutive matches, including
      the piece before the first match and the piece after the last one. Those
      two pieces are empty when `s` starts or ends with whitespace, and the
      empty string splits into one empty piece. */
  function Split(s: string): (pieces: seq<string>)
    ensures |pieces| >= 1
    ensures forall i :: 0 <= i < |pieces| ==> NoWs(pieces[i])
  {
    SplitScan(s, [], false)
  }

  /** Number of maximal whitespace runs in `s`, scanning left to right like a
      two-state automaton; `afterWs` says whether the character just before `s`
      was whitespace. A run is counted at its first character. */
  function RunsFrom(s: string, afterWs: bool): nat {
    if s == [] then 0
    else (if IsWs(s[0]) && !afterWs then 1 else 0) + RunsFrom(s[1..], IsWs(s[0]))
  }

  function RunCount(s: string): nat {
    RunsFrom(s, false)
  }

  /** `s` with every whitespace character removed. */
  function DropWs(s: string): string {
    if s == [] then []
    else (if IsWs(s[0]) then [] else [s[0]]) + DropWs(s[1..])
  }

  /** Concatenation of a sequence of strings. */
  function Concat(pieces: seq<string>): string {
    if pieces == [] then [] else pieces[0] + Concat(pieces[1..])
  }

  lemma {:induction false} ScanCountsRuns(s: string, cur: string, inRun: bool)
    requires NoWs(cur)
    ensures |SplitScan(s, cur, inRun)| == 1 + RunsFrom(s, inRun)
    decreases |s|
  {
    if s != [] {
      if IsWs(s[0]) {
        if inRun {
          ScanCountsRuns(s[1..], cur, true);
        } else {
          ScanCountsRuns(s[1..], [], true);
        }
      } else {
        ScanCountsRuns(s[1..], cur + [s[0]], false);
      }
    }
  }

  /** The displayed word count `split(/\s+/).length` is one more than the
      number of maximal whitespace runs, so it is never zero. */
  lemma SplitCountsRuns(s: string)
    ensures |Split(s)| == 1 + RunCount(s)
  {
    ScanCountsRuns(s, [], false);
  }

  lemma ConcatCons(w: string, q: seq<string>)
    ensures Concat([w] + q) == w + Concat(q)
  {
    assert ([w] + q)[1..] == q;
  }

  lemma {:induction false} ScanKeepsNonWs(s: string, cur: string, inRun: bool)
    requires NoWs(cur)
    ensures Concat(SplitScan(s, cur, inRun)) == cur + DropWs(s)
    decreases |s|
  {
    if s == [] {
      assert cur + [] == cur;
    } else if IsWs(s[0]) {
      if inRun {
        ScanKeepsNonWs(s[1..], cur, true);
      } else {
        ScanKeepsNonWs(s[1..], [], true);
        ConcatCons(cur, SplitScan(s[1..], [], true));
        assert [] + DropWs(s[1..]) == DropWs(s[1..]);
      }
    } else {
      ScanKeepsNonWs(s[1..], cur + [s[0]], false);
      assert cur + [s[0]] + DropWs(s[1..]) == cur + ([s[0]] + DropWs(s[1..]));
    }
  }

  /** Splitting loses exactly the whitespace: the pieces, put back together,
      are the input with its whitespace characters removed. */
  lemma SplitKeepsNonWs(s: string)
    ensures Concat(Split(s)) == DropWs(s)
  {
    ScanKeepsNonWs(s, [], false);
  }

  /** The piece being built is never dropped: it begins the first piece. */
  lemma {:induction false} ScanFirstExtends(s: string, cur: string, inRun: bool)
    requires NoWs(cur)
    ensures |SplitScan(s, cur, inRun)[0]| >= |cur|
    decreases |s|
  {
    if s != [] {
      if IsWs(s[0]) {
        if inRun {
          ScanFirstExtends(s[1..], cur, true);
        }
      } else {
        ScanFirstExtends(s[1..], cur + [s[0]], false);
      }
    }
  }

  /** The first piece is empty exactly when the text is empty or starts with
      whitespace. */
  lemma SplitFirstPiece(s: string)
    ensures Split(s)[0] == [] <==> (s == [] || IsWs(s[0]))
  {
    if s != [] && !IsWs(s[0]) {
      assert [] + [s[0]] == [s[0]];
      ScanFirstExtends(s[1..], [s[0]], false);
    }
  }

  /** After a run, a scan that produces more than one piece starts with a
      non-empty one. */
  lemma {:induction false} ScanAfterRunFirstNonEmpty(s: string)
    ensures var q := SplitScan(s, [], true); |q| > 1 ==> q[0] != []
    decreases |s|
  {
    if s != [] {
      if IsWs(s[0]) {
        ScanAfterRunFirstNonEmpty(s[1..]);
      } else {
        assert [] + [s[0]] == [s[0]];
        ScanFirstExtends(s[1..], [s[0]], false);
      }
    }
  }

  /** Only the first and the last of `pieces` may be empty. */
  predicate InteriorNonEmpty(pieces: seq<string>) {
    forall i :: 0 < i < |pieces| - 1 ==> pieces[i] != []
  }

  lemma {:induction false} ScanInteriorNonEmpty(s: string, cur: string, inRun: bool)
    requires NoWs(cur)
    ensures InteriorNonEmpty(SplitScan(s, cur, inRun))
    decreases |s|
  {
    if s != [] {
      if IsWs(s[0]) {
        if inRun {
          ScanInteriorNonEmpty(s[1..], cur, true);
        } else {
          var q := SplitScan(s[1..], [], true);
          ScanInteriorNonEmpty(s[1..], [], true);
          ScanAfterRunFirstNonEmpty(s[1..]);
          var p := [cur] + q;
          assert p == SplitScan(s, cur, inRun);
          forall i | 0 < i < |p| - 1
            ensures p[i] != []
          {
            assert p[i] == q[i - 1];
          }
        }
      } else {
        ScanInteriorNonEmpty(s[1..], cur + [s[0]], false);
      }
    }
  }

  /** Every piece strictly between the first and the last is a real word: only
      the two end pieces can be empty. */
  lemma SplitInteriorNonEmpty(s: string)
    ensures InteriorNonEmpty(Split(s))
  {
    ScanInteriorNonEmpty(s, [], false);
  }

  lemma {:induction false} ScanLastPiece(s: string, cur: string, inRun: bool)
    requires NoWs(cur)
    requires inRun ==> cur == []
    ensures var p := SplitScan(s, cur, inRun);
      p[|p| - 1] == [] <==> (if s == [] then cur == [] else IsWs(s[|s| - 1]))
    decreases |s|
  {
    if s != [] {
      var t := s[1..];
      assert t != [] ==> t[|t| - 1] == s[|s| - 1];
      if IsWs(s[0]) {
        if inRun {
          ScanLastPiece(t, cur, true);
        } else {
          ScanLastPiece(t, [], true);
          var q := SplitScan(t, [], true);
          assert ([cur] + q)[|q|] == q[|q| - 1];
        }
      } else {
        ScanLastPiece(t, cur + [s[0]], false);
      }
    }
  }

  /** The last piece is empty exactly when the text is empty or ends with
      whitespace. */
  lemma SplitLastPiece(s: string)
    ensures var p := Split(s); p[|p| - 1] == [] <==> (s == [] || IsWs(s[|s| - 1]))
  {
    ScanLastPiece(s, [], false);
  }

  /** A whitespace-free stretch only extends the piece being built. */
  lemma {:induction false} ScanWord(w: string, rest: string, cur: string, inRun: bool)
    requires NoWs(cur) && NoWs(w) && w != []
    ensures SplitScan(w + rest, cur, inRun) == SplitScan(rest, cur + w, false)
    decreases |w|
  {
    var s := w + rest;
    assert s[0] == w[0];
    assert s[1..] == w[1..] + rest;
    if |w| == 1 {
      assert w[1..] + rest == rest;
      assert cur + [w[0]] == cur + w;
    } else {
      ScanWord(w[1..], rest, cur + [w[0]], false);
      assert cur + [w[0]] + w[1..] == cur + w;
    }
  }

  /** Two words separated by one whitespace character split into exactly those
      two words. */
  lemma TwoWords(a: string, c: char, b: string)
    requires NoWs(a) && IsWs(c) && NoWs(b)
    ensures Split(a + [c] + b) == [a, b]
  {
    var s := a + [c] + b;
    var t := [c] + b;
    assert s == a + t;
    if a != [] {
      ScanWord(a, t, [], false);
      assert [] + a == a;
    }
    assert SplitScan(t, a, false) == [a] + SplitScan(b, [], true) by {
      assert t[0] == c && t[1..] == b;
    }
    if b != [] {
      ScanWord(b, [], [], true);
      assert b + [] == b && [] + b == b;
    }
  }

  /** "Hello world" splits into its two words, so the page shows two words. */
  lemma HelloWorldHasTwoWords()
    ensures Split("Hello world") == ["Hello", "world"]
  {
    assert NoWs("Hello") && NoWs("world");
    TwoWords("Hello", ' ', "world");
    assert "Hello world" == "Hello" + [' '] + "world";
  }

  /** A text of whitespace only splits into two empty pieces: "   " shows
      two words. */
  lemma AllWhitespaceCountsTwo()
    ensures Split("   ") == ["", ""]
  {
  }

  /** Leading whitespace yields an empty first piece that is still counted:
      " hello" shows two words. */
  lemma LeadingSpaceCountsAsWord()
    ensures Split(" hello") == ["", "hello"]
  {
    assert NoWs("") && NoWs("hello");
    TwoWords("", ' ', "hello");
    assert " hello" == "" + [' '] + "hello";
  }
}

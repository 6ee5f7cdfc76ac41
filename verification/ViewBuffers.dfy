/** The pager's window onto a stream of lines that is read no further than needed. */
module ViewBuffers {
  import opened Outcomes
  import opened Text

  /** bufio.Scanner: the lines of the input and a cursor. */
  class LineScanner {
    const lines: seq<string>
    var next: nat

    constructor (lines: seq<string>)
      ensures this.lines == lines && next == 0
    {
      this.lines, next := lines, 0;
    }

    method Scan() returns (line: Option<string>)
      requires next <= |lines|
      modifies this
      ensures line == if old(next) < |lines| then Some(lines[old(next)]) else None
      ensures next == if old(next) < |lines| then old(next) + 1 else old(next)
    {
      if next == |lines| {
        return None;
      }
      line := Some(lines[next]);
      next := next + 1;
    }
  }

  function Max(a: int, b: int): int {
    if a < b then b else a
  }

  function Min(a: int, b: int): int {
    if a < b then a else b
  }

  /** The line at the top of a page of `height` lines that is asked to begin at `begin`: the page does
      not reach past the end of the `n` lines, nor before their start. */
  function Top(begin: int, height: nat, n: nat): (top: nat)
    ensures top <= n && top + Min(height, n) <= n
  {
    Max(0, Min(begin, n - height))
  }

  /** A page that fits where it is asked to begin begins there; one too far up or down is moved to the
      first or the last line. */
  lemma TopClamps(begin: int, height: nat, n: nat)
    ensures 0 <= begin && begin + height <= n ==> Top(begin, height, n) == begin
    ensures begin <= 0 || n <= height ==> Top(begin, height, n) == 0
    ensures 0 <= n - height <= begin ==> Top(begin, height, n) == n - height
  {
  }

  // ----- Searching in a circle -----

  /** A line past the end stands for one from the start. */
  function Wrap(i: nat, n: nat): nat {
    if i < n then i else i - n
  }

  predicate Hit(lines: seq<string>, token: string, i: nat)
    requires i < 2 * |lines|
  {
    Contains(lines[Wrap(i, |lines|)], token)
  }

  /** The first of `count` lines, in a circle from line `from`, that contains the token. */
  function Find(lines: seq<string>, token: string, from: nat, count: nat): Option<nat>
    requires from + count <= 2 * |lines|
    decreases count
  {
    if count == 0 then None
    else if Hit(lines, token, from) then Some(Wrap(from, |lines|))
    else Find(lines, token, from + 1, count - 1)
  }

  /** Where the next search for the same token ends up after a hit at line `last`; -1 is no hit yet. */
  function Next(lines: seq<string>, token: string, last: int): Option<nat>
    requires -1 <= last < |lines|
  {
    Find(lines, token, last + 1, if last == -1 then |lines| else |lines| - 1)
  }

  /** Where a search from `lineIndex` begins to look: past the end it goes back to the start. */
  ghost function Start(lineIndex: nat, n: nat): (from: nat)
    ensures from <= n
  {
    if lineIndex <= n then lineIndex else 0
  }

  /** The number of lines from there up to `stop`, in a circle; all of them if there is no such line. */
  ghost function SearchLength(lineIndex: nat, stop: int, n: nat): (count: nat)
    ensures count <= n
  {
    var from := Start(lineIndex, n);
    if lineIndex == stop then 0
    else if stop < 0 || stop > n then n
    else if from <= stop then stop - from
    else n - from + stop
  }

  /** No line holds the token, and the line to stop at is not there to be reached. */
  ghost predicate Endless(lines: seq<string>, token: string, lineIndex: nat, stop: int) {
    && lineIndex != stop
    && !(0 <= Goal(lineIndex, stop) <= |lines|)
    && forall i :: 0 <= i < |lines| ==> !Contains(lines[i], token)
  }

  /** The line to stop at from the first round on. */
  function Goal(lineIndex: nat, stop: int): int {
    if stop == -1 then lineIndex else stop
  }

  datatype SearchState = Found(line: nat) | GivenUp | Looking(line: nat, stop: int)

  /** One round of SearchFromLine's loop. */
  function Round(lines: seq<string>, token: string, s: SearchState): SearchState {
    if !s.Looking? then s
    else if s.line == s.stop then GivenUp
    else if s.line >= |lines| then Looking(0, Goal(s.line, s.stop))
    else if Contains(lines[s.line], token) then Found(s.line)
    else Looking(s.line + 1, Goal(s.line, s.stop))
  }

  function Rounds(lines: seq<string>, token: string, s: SearchState, k: nat): SearchState {
    if k == 0 then s else Round(lines, token, Rounds(lines, token, s, k - 1))
  }

  class ViewBuffer {
    var buf: seq<string>
    var beginIndex: int
    var maxHeight: int
    var lastLine: int
    const scanner: LineScanner
    var lastSearchToken: string
    var lastSearchResultLine: int

    ghost function Input(): seq<string> {
      scanner.lines
    }

    /** The lines read are a prefix of the input; a window that begins before the first line has been
        placed against the end, so the whole input is known; the last hit is a hit. */
    ghost predicate Valid()
      reads this, scanner
    {
      && scanner.next == |buf| && buf <= Input()
      && (lastLine == -1 || (lastLine == |buf| == |Input()|))
      && maxHeight >= 0
      && beginIndex <= |buf|
      && (beginIndex < 0 ==> lastLine != -1)
      && (lastSearchToken != "" ==>
          && -1 <= lastSearchResultLine < |Input()|
          && (lastSearchResultLine >= 0 ==> Contains(Input()[lastSearchResultLine], lastSearchToken)))
    }

    /** The line at the top of the next view. */
    ghost function TopLine(): nat
      requires maxHeight >= 0
      reads this
    {
      Top(beginIndex, maxHeight, |Input()|)
    }

    constructor (lines: seq<string>)
      ensures Valid() && Input() == lines && TopLine() == 0 && buf == []
      ensures fresh(scanner) && maxHeight == 64
    {
      buf, beginIndex, lastLine, maxHeight := [], 0, -1, 64;
      scanner := new LineScanner(lines);
      lastSearchToken, lastSearchResultLine := "", 0;
    }

    method SetMaxHeight(height: int)
      requires Valid() && height >= 0
      modifies `maxHeight
      ensures Valid() && maxHeight == height
    {
      maxHeight := height;
    }

    method Scan() returns (more: bool)
      requires Valid()
      modifies `buf, `lastLine, scanner
      ensures Valid()
      ensures more <==> |old(buf)| < |Input()|
      ensures more ==> |buf| == |old(buf)| + 1 && lastLine == -1
      ensures !more ==> buf == old(buf) && lastLine == |buf| == |Input()|
    {
      if lastLine != -1 {
        return false;
      }
      var line := scanner.Scan();
      if line.None? {
        lastLine := |buf|;
        return false;
      }
      buf := buf + [line.value];
      return true;
    }

    /** A full page of consecutive lines, or all of them if there are fewer; and no line read that is
        not needed for that. */
    method CurrentView() returns (view: seq<string>)
      requires Valid()
      modifies `buf, `lastLine, `beginIndex, scanner
      ensures Valid()
      ensures |view| == Min(maxHeight, |Input()|)
      ensures view == Input()[old(TopLine())..old(TopLine()) + |view|]
      ensures TopLine() == old(TopLine()) == beginIndex
      ensures |buf| == Max(|old(buf)|, Min(old(beginIndex) + maxHeight, |Input()|))
    {
      while |buf| - beginIndex < maxHeight
        invariant Valid() && beginIndex == old(beginIndex)
        invariant |buf| >= |old(buf)|
        invariant |buf| == |old(buf)| || |buf| - beginIndex <= maxHeight
        decreases |Input()| - |buf|
      {
        var more := Scan();
        if !more {
          break;
        }
      }
      if |buf| - beginIndex < maxHeight {
        beginIndex := |buf| - maxHeight;
      }
      if beginIndex < 0 {
        beginIndex := 0;
      }
      var start := beginIndex;
      var end := beginIndex + maxHeight;
      if end > |buf| {
        end := |buf|;
      }
      assert buf == Input()[..|buf|];
      return buf[start..end];
    }

    method ScrollUp()
      requires Valid()
      modifies `beginIndex
      ensures Valid() && TopLine() == Top(old(beginIndex) - 1, maxHeight, |Input()|)
    {
      if beginIndex > 0 {
        beginIndex := beginIndex - 1;
      }
    }

    method ScrollTop()
      requires Valid()
      modifies `beginIndex
      ensures Valid() && TopLine() == 0
    {
      beginIndex := 0;
    }

    /** One line down unless the end is in view. */
    method ScrollDown()
      requires Valid()
      modifies `buf, `lastLine, `beginIndex, scanner
      ensures Valid() && |buf| <= |old(buf)| + 1
      ensures TopLine() == Top(old(beginIndex) + 1, maxHeight, |Input()|)
    {
      if |buf| - beginIndex > maxHeight {
        beginIndex := beginIndex + 1;
      } else if lastLine == -1 {
        var more := Scan();
        if more {
          beginIndex := beginIndex + 1;
        }
      }
    }

    /** Down by `n` lines; while lines below the page have been read already, no further than those. */
    method ScrollDownN(n: int)
      requires Valid() && n >= 0
      modifies `buf, `lastLine, `beginIndex, scanner
      ensures Valid() && |buf| <= |old(buf)| + n
      ensures
        var known := if |old(buf)| - old(beginIndex) > maxHeight then |old(buf)| else |Input()|;
        TopLine() == Top(old(beginIndex) + n, maxHeight, known)
    {
      if |buf| - beginIndex > maxHeight {
        if |buf| - beginIndex >= maxHeight + n {
          beginIndex := beginIndex + n;
        } else {
          var remaining := |buf| - beginIndex - maxHeight;
          beginIndex := beginIndex + remaining;
        }
      } else if lastLine == -1 {
        var i := 0;
        while i < n
          invariant 0 <= i <= n
          invariant Valid() && beginIndex == old(beginIndex) && |buf| == |old(buf)| + i
          decreases n - i
        {
          var more := Scan();
          if !more {
            break;
          }
          i := i + 1;
        }
        beginIndex := beginIndex + i;
      }
    }

    method ScrollToLine(projectedBeginIndex: int)
      requires Valid()
      modifies `buf, `lastLine, `beginIndex, scanner
      ensures Valid() && TopLine() == Top(projectedBeginIndex, maxHeight, |Input()|)
      ensures |buf| == if projectedBeginIndex <= 0 then |old(buf)| else
                       Max(|old(buf)|, Min(projectedBeginIndex + maxHeight + 1, |Input()|))
    {
      var projectedEndIndex := projectedBeginIndex + maxHeight;
      if projectedBeginIndex <= 0 {
        beginIndex := 0;
        return;
      }
      while |buf| <= projectedEndIndex
        invariant Valid() && beginIndex == old(beginIndex)
        invariant |buf| >= |old(buf)|
        invariant |buf| == |old(buf)| || |buf| <= projectedEndIndex + 1
        decreases |Input()| - |buf|
      {
        var more := Scan();
        if !more {
          break;
        }
      }
      if |buf| >= projectedEndIndex {
        beginIndex := projectedBeginIndex;
        return;
      }
      beginIndex := |buf| - maxHeight;
    }

    method ScrollBottom()
      requires Valid()
      modifies `buf, `lastLine, `beginIndex, scanner
      ensures Valid() && buf == Input() && TopLine() == Max(0, |Input()| - maxHeight)
    {
      var more := true;
      while more
        invariant Valid() && beginIndex == old(beginIndex)
        invariant !more ==> |buf| == |Input()|
        decreases |Input()| - |buf|, more
      {
        more := Scan();
      }
      beginIndex := |buf| - maxHeight;
      if beginIndex <= 0 {
        beginIndex := 0;
      }
    }

    /** Reads on until the line is there or the input ends. */
    method ReadTo(lineIndex: nat)
      requires Valid()
      modifies `buf, `lastLine, scanner
      ensures Valid()
      ensures buf <= Input() && |buf| == Max(|old(buf)|, Min(lineIndex + 1, |Input()|))
    {
      while lineIndex >= |buf|
        invariant Valid()
        invariant |buf| == |old(buf)| || |buf| <= lineIndex + 1
        invariant |buf| >= |old(buf)|
        decreases |Input()| - |buf|
      {
        var more := Scan();
        if !more {
          break;
        }
      }
    }

    /** Searches in a circle from `lineIndex` up to `stopAtLineIndex`, or all around if that is -1. */
    method SearchFromLine(lineIndex: int, searchToken: string, stopAtLineIndex: int) returns (r: Outcome<(int, bool)>)
      requires Valid()
      requires lineIndex >= 0 ==> !Endless(Input(), searchToken, lineIndex, stopAtLineIndex)
      modifies `buf, `lastLine, scanner
      ensures Valid()
      ensures lineIndex < 0 ==> buf == old(buf) && r == if lineIndex == stopAtLineIndex then Ok((-1, false)) else Crash
      ensures lineIndex >= 0 ==> r.Ok? && (!r.value.1 ==> r.value.0 == -1)
      ensures lineIndex >= 0 ==>
        Find(Input(), searchToken, Start(lineIndex, |Input()|), SearchLength(lineIndex, stopAtLineIndex, |Input()|))
        == if r.value.1 then Some(r.value.0) else None
      ensures r.Ok? && r.value.1 && r.value.0 >= lineIndex ==> |buf| == Max(|old(buf)|, r.value.0 + 1)
      ensures lineIndex >= 0 ==> exists k: nat ::
        Rounds(Input(), searchToken, Looking(lineIndex, stopAtLineIndex), k) == if r.value.1 then Found(r.value.0) else GivenUp
    {
      if lineIndex < 0 {
        // Unless the search stops at once, buf[lineIndex] is out of range.
        return if lineIndex == stopAtLineIndex then Ok((-1, false)) else Crash;
      }
      hide Find, SearchLength, Endless, Rounds, Valid;
      var found, ok := SearchAround(lineIndex, searchToken, stopAtLineIndex);
      return Ok((found, ok));
    }

    /** The loop of SearchFromLine, begun at a line that is there, or past the end. */
    method SearchAround(lineIndex: nat, searchToken: string, stopAtLineIndex: int) returns (found: int, ok: bool)
      requires Valid() && !Endless(Input(), searchToken, lineIndex, stopAtLineIndex)
      modifies `buf, `lastLine, scanner
      ensures Valid()
      ensures Find(Input(), searchToken, Start(lineIndex, |Input()|), SearchLength(lineIndex, stopAtLineIndex, |Input()|))
              == if ok then Some(found) else None
      ensures !ok ==> found == -1
      ensures ok && found >= lineIndex ==> |buf| == Max(|old(buf)|, found + 1)
      ensures exists k: nat ::
        Rounds(Input(), searchToken, Looking(lineIndex, stopAtLineIndex), k) == if ok then Found(found) else GivenUp
    {
      hide Valid, Contains, Hit, Find, SearchLength, Endless, Rounds;
      var line, stop := lineIndex, stopAtLineIndex;
      ghost var lines, n := Input(), |Input()|;
      ghost var from, count := Start(lineIndex, n), SearchLength(lineIndex, stopAtLineIndex, n);
      ghost var at, wrapped, rounds := from, false, 0;
      SetsOut(lines, searchToken, lineIndex, stopAtLineIndex);
      while true
        invariant Valid()
        invariant OnTheWay(n, lineIndex, stopAtLineIndex, line, stop, at, wrapped)
        invariant lineIndex <= n && !wrapped ==> |buf| == if at == lineIndex then |old(buf)| else Max(|old(buf)|, line)
        invariant Find(lines, searchToken, at, from + count - at) == Find(lines, searchToken, from, count)
        invariant Rounds(lines, searchToken, Looking(lineIndex, stopAtLineIndex), rounds) == Looking(line, stop)
        decreases from + count - at, !wrapped, line > n
      {
        Onward(lines, searchToken, lineIndex, stopAtLineIndex, line, stop, at, wrapped);
        RoundsStep(lines, searchToken, Looking(lineIndex, stopAtLineIndex), rounds);
        rounds := rounds + 1;
        if line == stop {
          return -1, false;
        }
        if stop == -1 {
          stop := line;
        }
        ReadTo(line);
        if line >= |buf| {
          wrapped := wrapped || line == n;
          line := 0;
          continue;
        }
        if Contains(buf[line], searchToken) {
          return line, true;
        }
        line := line + 1;
        at := at + 1;
      }
    }

    /** The next hit in a circle after the last one for this token, shown by scrolling to the line
        before it: the next view holds the hit if it has two lines or more. Nothing but the token is
        remembered when there is no hit. The token's first character is the key that began the search. */
    method Search(token: string) returns (r: Outcome<bool>)
      requires Valid()
      modifies `buf, `lastLine, `beginIndex, `lastSearchToken, `lastSearchResultLine, scanner
      ensures Valid()
      ensures r == Crash <==> token == ""
      ensures !r.Fail?
      ensures |token| <= 1 ==> r != Ok(true) && lastSearchToken == old(lastSearchToken) && lastSearchResultLine == old(lastSearchResultLine)
      ensures |token| > 1 ==>
        var last := if old(lastSearchToken) == token[1..] then old(lastSearchResultLine) else -1;
        && lastSearchToken == token[1..]
        && r == Ok(Next(Input(), token[1..], last).Some?)
        && lastSearchResultLine == Later(Input(), token[1..], last, 1)
      ensures TopLine() == if r == Ok(true) then Top(lastSearchResultLine - 1, maxHeight, |Input()|) else old(TopLine())
      ensures r == Ok(true) ==>
        && lastSearchResultLine < |Input()|
        && (TopLine() <= lastSearchResultLine < TopLine() + Min(maxHeight, |Input()|) <==>
            maxHeight >= 2 || (maxHeight == 1 && lastSearchResultLine == 0))
    {
      if token == "" {
        return Crash;
      }
      var text := token[1..];
      if |text| == 0 {
        return Ok(false);
      }
      RememberToken(text);
      hide Valid, Contains, Find, Hit, Top, Later;
      NextIsHit(Input(), text, lastSearchResultLine);
      var hit := SearchFromLine(lastSearchResultLine + 1, text, lastSearchResultLine);
      if hit.value.1 {
        Show(hit.value.0);
        return Ok(true);
      }
      return Ok(false);
    }

    /** A new token starts from no hit. */
    method RememberToken(text: string)
      requires Valid() && text != ""
      modifies `lastSearchToken, `lastSearchResultLine
      ensures Valid() && lastSearchToken == text
      ensures lastSearchResultLine == if old(lastSearchToken) == text then old(lastSearchResultLine) else -1
      ensures -1 <= lastSearchResultLine < |Input()|
    {
      if lastSearchToken != text {
        lastSearchToken := text;
        lastSearchResultLine := -1;
      }
    }

    /** Scrolls to a hit and remembers it. */
    method Show(hit: nat)
      requires Valid() && hit < |Input()| && lastSearchToken != "" && Contains(Input()[hit], lastSearchToken)
      modifies `buf, `lastLine, `beginIndex, `lastSearchResultLine, scanner
      ensures Valid() && lastSearchResultLine == hit && TopLine() == Top(hit - 1, maxHeight, |Input()|)
      ensures TopLine() <= hit < TopLine() + Min(maxHeight, |Input()|) <==> maxHeight >= 2 || (maxHeight == 1 && hit == 0)
    {
      hide Contains;
      ScrollToLine(hit - 1);
      lastSearchResultLine := hit;
      HitInView(hit, maxHeight, |Input()|);
    }
  }

  lemma HitInView(hit: nat, height: nat, n: nat)
    requires hit < n
    ensures var top := Top(hit - 1, height, n);
      top <= hit < top + Min(height, n) <==> height >= 2 || (height == 1 && hit == 0)
  {
  }

  lemma FindStep(lines: seq<string>, token: string, from: nat, count: nat)
    requires from + count <= 2 * |lines| && count > 0
    ensures Find(lines, token, from, count) ==
            if Contains(lines[Wrap(from, |lines|)], token) then Some(Wrap(from, |lines|)) else Find(lines, token, from + 1, count - 1)
  {
  }

  /** After some rounds of a search the next line to look at is `at`, counted around the circle. */
  ghost predicate OnTheWay(n: nat, lineIndex: nat, stop0: int, line: int, stop: int, at: nat, wrapped: bool) {
    var from, count := Start(lineIndex, n), SearchLength(lineIndex, stop0, n);
    && 0 <= line && from <= at <= from + count
    && (stop == stop0 || (stop0 == -1 && stop == lineIndex)) && (stop == -1 ==> line == lineIndex)
    && (line > n ==> line == lineIndex && at == from && !wrapped && stop == stop0)
    && (line <= n ==> line == if wrapped then at - n else at)
    && (lineIndex == stop0 ==> line == lineIndex && stop == stop0)
    && (0 <= stop0 <= n ==> if from <= stop0 then !wrapped else wrapped || at > stop0)
    && (stop0 == -1 && lineIndex <= n ==> if stop == -1 then at == lineIndex && !wrapped else wrapped || at > lineIndex)
  }

  lemma SetsOut(lines: seq<string>, token: string, lineIndex: nat, stop: int)
    ensures OnTheWay(|lines|, lineIndex, stop, lineIndex, stop, Start(lineIndex, |lines|), false)
    ensures Rounds(lines, token, Looking(lineIndex, stop), 0) == Looking(lineIndex, stop)
  {
  }

  lemma RoundsStep(lines: seq<string>, token: string, s: SearchState, k: nat)
    ensures Rounds(lines, token, s, k + 1) == Round(lines, token, Rounds(lines, token, s, k))
  {
  }

  /** What a round of a search that ends does. */
  lemma Onward(lines: seq<string>, token: string, lineIndex: nat, stop0: int, line: int, stop: int, at: nat, wrapped: bool)
    requires OnTheWay(|lines|, lineIndex, stop0, line, stop, at, wrapped)
    requires !Endless(lines, token, lineIndex, stop0)
    requires var from, count := Start(lineIndex, |lines|), SearchLength(lineIndex, stop0, |lines|);
      Find(lines, token, at, from + count - at) == Find(lines, token, from, count)
    ensures var n, end := |lines|, Start(lineIndex, |lines|) + SearchLength(lineIndex, stop0, |lines|);
      if line == stop then Find(lines, token, at, end - at) == None
      else if line >= n then OnTheWay(n, lineIndex, stop0, 0, Goal(line, stop), at, wrapped || line == n) && (line == n ==> !wrapped)
      else if Contains(lines[line], token) then Find(lines, token, at, end - at) == Some(line) && at < end
      else
        && OnTheWay(n, lineIndex, stop0, line + 1, Goal(line, stop), at + 1, wrapped)
        && Find(lines, token, at + 1, end - (at + 1)) == Find(lines, token, at, end - at)
  {
    hide Contains;
    var n, end := |lines|, Start(lineIndex, |lines|) + SearchLength(lineIndex, stop0, |lines|);
    if !(0 <= Goal(lineIndex, stop0) <= n) && lineIndex != stop0 {
      var i :| 0 <= i < n && Contains(lines[i], token);
      FindMeans(lines, token, Start(lineIndex, n), n);
      assert Hit(lines, token, if i >= Start(lineIndex, n) then i else i + n);
      assert at < end;
    }
    if line != stop && line < n {
      FindStep(lines, token, at, end - at);
    }
  }

  /** A search without end goes on after every number of rounds. */
  lemma {:induction false} EndlessNeverEnds(lines: seq<string>, token: string, lineIndex: nat, stop: int, k: nat)
    requires Endless(lines, token, lineIndex, stop)
    ensures var s := Rounds(lines, token, Looking(lineIndex, stop), k);
      s.Looking? && s.line != s.stop && Goal(s.line, s.stop) == Goal(lineIndex, stop)
  {
    hide Contains;
    if k > 0 {
      EndlessNeverEnds(lines, token, lineIndex, stop, k - 1);
    }
  }

  /** The result is the first hit on the way; none means none. */
  lemma {:induction false} FindMeans(lines: seq<string>, token: string, from: nat, count: nat)
    requires from + count <= 2 * |lines|
    ensures match Find(lines, token, from, count)
            case None => forall i :: from <= i < from + count ==> !Hit(lines, token, i)
            case Some(x) =>
              exists e :: from <= e < from + count && Hit(lines, token, e) && x == Wrap(e, |lines|)
                && forall i :: from <= i < e ==> !Hit(lines, token, i)
    decreases count
  {
    hide Hit;
    if count != 0 && !Hit(lines, token, from) {
      FindMeans(lines, token, from + 1, count - 1);
    }
  }

  /** The line remembered after `k` more searches for the same token. */
  function Later(lines: seq<string>, token: string, last: int, k: nat): (r: int)
    requires -1 <= last < |lines|
    ensures -1 <= r < |lines|
  {
    if k == 0 then last
    else
      var before := Later(lines, token, last, k - 1);
      FindBounded(lines, token, before);
      var hit := Next(lines, token, before);
      if hit.Some? then hit.value else before
  }

  lemma NextIsHit(lines: seq<string>, token: string, last: int)
    requires -1 <= last < |lines|
    ensures Later(lines, token, last, 1) == if Next(lines, token, last).Some? then Next(lines, token, last).value else last
    ensures var hit := Next(lines, token, last); hit.Some? ==> hit.value < |lines| && Contains(lines[hit.value], token)
  {
    assert Later(lines, token, last, 0) == last;
    FindMeans(lines, token, last + 1, if last == -1 then |lines| else |lines| - 1);
  }

  lemma FindBounded(lines: seq<string>, token: string, last: int)
    requires -1 <= last < |lines|
    ensures Next(lines, token, last).Some? ==> Next(lines, token, last).value < |lines|
  {
    FindMeans(lines, token, last + 1, if last == -1 then |lines| else |lines| - 1);
  }

  /** The lines that contain the token, from the top. */
  function Matches(lines: seq<string>, token: string): seq<nat> {
    if lines == [] then []
    else
      var n := |lines| - 1;
      Matches(lines[..n], token) + if Contains(lines[n], token) then [n] else []
  }

  lemma {:induction false} MatchesAre(lines: seq<string>, token: string)
    ensures forall i :: i in Matches(lines, token) <==> 0 <= i < |lines| && Contains(lines[i], token)
    ensures forall a, b :: 0 <= a < b < |Matches(lines, token)| ==> Matches(lines, token)[a] < Matches(lines, token)[b]
  {
    hide Contains;
    if lines != [] {
      var n := |lines| - 1;
      MatchesAre(lines[..n], token);
      var ms := Matches(lines[..n], token);
      assert forall a :: 0 <= a < |ms| ==> ms[a] in ms;
    }
  }

  /** From the k-th match the next search goes to the one below it, and from the last one to the
      first; with a single match there is no next. */
  lemma NextMatch(lines: seq<string>, token: string, k: int)
    requires -1 <= k < |Matches(lines, token)|
    ensures var ms := Matches(lines, token);
      var last := if k == -1 then -1 else ms[k];
      && -1 <= last < |lines|
      && Next(lines, token, last) == (
           if ms == [] || (k == 0 && |ms| == 1) then None
           else if k + 1 < |ms| then Some(ms[k + 1]) else Some(ms[0]))
  {
    var ms, n := Matches(lines, token), |lines|;
    MatchesAre(lines, token);
    var last := if k == -1 then -1 else ms[k];
    assert k >= 0 ==> ms[k] in ms;
    var count := if last == -1 then n else n - 1;
    FindMeans(lines, token, last + 1, count);
    forall i: nat | i < 2 * n
      ensures Hit(lines, token, i) <==> Wrap(i, n) in ms
    {
    }
    hide Hit, Matches, Find;
    if k + 1 < |ms| {
      assert ms[k + 1] in ms;
      assert Hit(lines, token, ms[k + 1]);
    } else if |ms| >= 2 {
      assert ms[0] in ms && ms[0] < ms[k];
      assert Wrap(ms[0] + n, n) == ms[0];
      assert Hit(lines, token, ms[0] + n);
    }
  }

  /** Position `i` on a circle of `m`. */
  function Around(i: nat, m: nat): (r: nat)
    requires m >= 1
    ensures r < m
  {
    if i < m then i else Around(i - m, m)
  }

  /** Searching on and on for a token that at least two lines contain goes around its matches in
      order: `k` searches after the match `j`, or -1 for none yet, comes match j + k, in a circle. */
  lemma {:induction false} SearchesGoAround(lines: seq<string>, token: string, j: int, k: nat)
    requires -1 <= j < |Matches(lines, token)| && |Matches(lines, token)| >= 2
    requires j + k >= 0
    ensures var ms := Matches(lines, token);
      && -1 <= (if j == -1 then -1 else ms[j]) < |lines|
      && Later(lines, token, if j == -1 then -1 else ms[j], k) == ms[Around(j + k, |ms|)]
    decreases k
  {
    var ms := Matches(lines, token);
    NextMatch(lines, token, j);
    hide Matches, Next, Around;
    if j + k == 0 {
      StartsAt(0, |ms|);
      if k == 1 {
        assert Later(lines, token, -1, 0) == -1;
      }
    } else if k == 0 {
      StartsAt(j, |ms|);
    } else {
      SearchesGoAround(lines, token, j, k - 1);
      var at := Around(j + k - 1, |ms|);
      NextMatch(lines, token, at);
      OneAround(j + k - 1, |ms|);
    }
  }

  lemma StartsAt(j: nat, m: nat)
    requires j < m
    ensures Around(j, m) == j
  {
  }

  lemma {:induction false} OneAround(i: nat, m: nat)
    requires m >= 2
    ensures Around(i + 1, m) == if Around(i, m) + 1 < m then Around(i, m) + 1 else 0
  {
    if i >= m {
      OneAround(i - m, m);
    }
  }

  /** With m >= 2 matching lines, m searches in a row visit each of them exactly once, wherever they begin. */
  lemma EachMatchOnce(lines: seq<string>, token: string, j: int, i: nat) returns (k: nat)
    requires -1 <= j < |Matches(lines, token)| && |Matches(lines, token)| >= 2
    requires i < |lines| && Contains(lines[i], token)
    ensures var ms := Matches(lines, token);
      var last := if j == -1 then -1 else ms[j];
      && -1 <= last < |lines| && 1 <= k <= |ms|
      && forall l :: 1 <= l <= |ms| ==> (Later(lines, token, last, l) == i <==> l == k)
  {
    var ms := Matches(lines, token);
    MatchesAre(lines, token);
    var last := if j == -1 then -1 else ms[j];
    SearchesGoAround(lines, token, j, 1);
    var t :| 0 <= t < |ms| && ms[t] == i;
    k := if t > j then t - j else t - j + |ms|;
    hide Matches, Later, Contains;
    forall l | 1 <= l <= |ms|
      ensures Later(lines, token, last, l) == i <==> l == k
    {
      SearchesGoAround(lines, token, j, l);
      var at := if j + l < |ms| then j + l else j + l - |ms|;
      assert Around(j + l, |ms|) == at;
      assert ms[at] == ms[t] <==> at == t;
    }
  }
}

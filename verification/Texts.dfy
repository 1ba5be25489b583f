/** The string operations that the service token is printed and read with. */
module Texts {

  /** The white space that trimming removes. */
  predicate IsSpace(c: char) {
    || '\t' <= c <= '\r' || c == ' ' || c == '\U{A0}' || c == '\U{1680}' || '\U{2000}' <= c <= '\U{200A}'
    || c == '\U{2028}' || c == '\U{2029}' || c == '\U{202F}' || c == '\U{205F}' || c == '\U{3000}' || c == '\U{FEFF}'
  }

  function TrimStart(s: string): string {
    if s != "" && IsSpace(s[0]) then TrimStart(s[1..]) else s
  }

  function TrimEnd(s: string): string {
    if s != "" && IsSpace(s[|s| - 1]) then TrimEnd(s[..|s| - 1]) else s
  }

  function Trim(s: string): string {
    TrimEnd(TrimStart(s))
  }

  lemma TrimKeepsText(s: string)
    requires s != "" && !IsSpace(s[0])
    ensures Trim(s) != ""
  {
    TrimEndKeepsFirst(s);
  }

  lemma {:induction false} TrimEndKeepsFirst(s: string)
    requires s != "" && !IsSpace(s[0])
    ensures TrimEnd(s) != "" && TrimEnd(s)[0] == s[0]
  {
    if IsSpace(s[|s| - 1]) {
      TrimEndKeepsFirst(s[..|s| - 1]);
    }
  }

  lemma {:induction false} TrimEndIsTrimmed(s: string)
    ensures TrimEnd(s) == "" || (!IsSpace(TrimEnd(s)[|TrimEnd(s)| - 1]) && s != "" && TrimEnd(s)[0] == s[0])
  {
    if s != "" && IsSpace(s[|s| - 1]) {
      TrimEndIsTrimmed(s[..|s| - 1]);
    }
  }

  lemma {:induction false} TrimStartIsTrimmed(s: string)
    ensures TrimStart(s) == "" || !IsSpace(TrimStart(s)[0])
  {
    if s != "" && IsSpace(s[0]) {
      TrimStartIsTrimmed(s[1..]);
    }
  }

  lemma TrimTwice(s: string)
    ensures Trim(Trim(s)) == Trim(s)
  {
    TrimStartIsTrimmed(s);
    TrimEndIsTrimmed(TrimStart(s));
  }

  function Replaced(s: string, from: char, to: char): string {
    seq(|s|, i requires 0 <= i < |s| => if s[i] == from then to else s[i])
  }

  function Repeat(c: char, n: nat): string {
    seq(n, _ => c)
  }

  /** The text with every `c` taken out. */
  function Without(s: string, c: char): string {
    if s == "" then ""
    else Without(s[..|s| - 1], c) + if s[|s| - 1] == c then "" else [s[|s| - 1]]
  }

  function WithoutTail(s: string, c: char): string {
    if s != "" && s[|s| - 1] == c then WithoutTail(s[..|s| - 1], c) else s
  }

  lemma {:induction false} WithoutNothing(s: string, c: char)
    requires c !in s
    ensures Without(s, c) == s
  {
    if s != "" {
      WithoutNothing(s[..|s| - 1], c);
      assert s == s[..|s| - 1] + [s[|s| - 1]];
    }
  }

  lemma {:induction false} WithoutPadding(s: string, c: char, n: nat)
    requires c !in s
    ensures Without(s + Repeat(c, n), c) == s
  {
    var whole := s + Repeat(c, n);
    if n == 0 {
      assert whole == s;
      WithoutNothing(s, c);
    } else {
      assert whole[..|whole| - 1] == s + Repeat(c, n - 1);
      WithoutPadding(s, c, n - 1);
    }
  }

  lemma {:induction false} TailOnly(s: string, c: char, n: nat)
    requires c !in s
    ensures WithoutTail(s + Repeat(c, n), c) == s
  {
    var whole := s + Repeat(c, n);
    if n == 0 {
      assert whole == s;
      assert s != "" ==> s[|s| - 1] in s;
    } else {
      assert whole[..|whole| - 1] == s + Repeat(c, n - 1);
      TailOnly(s, c, n - 1);
    }
  }

  /** The parts of a text between separators. */
  function Split(s: string, c: char): (parts: seq<string>)
    ensures |parts| >= 1
  {
    if s == "" then [""]
    else if s[|s| - 1] == c then Split(s[..|s| - 1], c) + [""]
    else
      var before := Split(s[..|s| - 1], c);
      before[..|before| - 1] + [before[|before| - 1] + [s[|s| - 1]]]
  }

  function Joined(parts: seq<string>, c: char): string
    requires |parts| >= 1
  {
    if |parts| == 1 then parts[0] else Joined(parts[..|parts| - 1], c) + [c] + parts[|parts| - 1]
  }

  /** Splitting loses nothing: joining the parts gives the text back, and no part holds a separator. */
  lemma {:induction false} JoinSplit(s: string, c: char)
    ensures Joined(Split(s, c), c) == s
    ensures forall part | part in Split(s, c) :: c !in part
  {
    if s != "" {
      var front, last := s[..|s| - 1], s[|s| - 1];
      JoinSplit(front, c);
      var before := Split(front, c);
      assert s == front + [last];
      if last == c {
        assert (before + [""])[..|before|] == before;
      } else {
        var parts := before[..|before| - 1] + [before[|before| - 1] + [last]];
        assert Split(s, c) == parts;
        assert parts[..|parts| - 1] == before[..|before| - 1];
        forall part | part in parts ensures c !in part {
          var i :| 0 <= i < |parts| && parts[i] == part;
          if i == |parts| - 1 {
            assert before[|before| - 1] in before;
          } else {
            assert before[i] in before;
          }
        }
      }
    }
  }

  lemma {:induction false} SplitWhole(s: string, c: char)
    requires c !in s
    ensures Split(s, c) == [s]
  {
    if s != "" {
      SplitWhole(s[..|s| - 1], c);
      assert s == s[..|s| - 1] + [s[|s| - 1]];
    }
  }

  lemma {:induction false} SplitLast(s: string, c: char, last: string)
    requires c !in last
    ensures Split(s + [c] + last, c) == Split(s, c) + [last]
  {
    var whole := s + [c] + last;
    if last == "" {
      assert whole[..|whole| - 1] == s;
    } else {
      var front := last[..|last| - 1];
      assert whole[..|whole| - 1] == s + [c] + front;
      SplitLast(s, c, front);
      assert last == front + [last[|last| - 1]];
    }
  }

  lemma TrimWhole(s: string)
    requires s != "" && !IsSpace(s[0]) && !IsSpace(s[|s| - 1])
    ensures Trim(s) == s
  {
  }
}

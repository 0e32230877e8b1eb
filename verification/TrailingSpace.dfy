/** skip_trailing_space: a scan from the end that compares aligned words where it can. A buffer is
    given by its address and its bytes, so that alignment is a matter of the address. */
module TrailingSpace {
  import opened Common

  // The plain loop: where the trailing spaces start.
  function PlainEnd(s: seq<Byte>): (r: nat)
    ensures r <= |s|
  {
    if s == [] || s[|s| - 1] != SPACE then |s| else PlainEnd(s[..|s| - 1])
  }

  // The value of a word in memory, lowest byte first.
  function Word(b: seq<Byte>): nat {
    if b == [] then 0 else b[0] + 0x100 * Word(b[1..])
  }

  function SpaceWord(width: nat): nat {
    if width == 0 then 0 else SPACE + 0x100 * SpaceWord(width - 1)
  }

  lemma SpaceWords()
    ensures SpaceWord(4) == 0x20202020 && SpaceWord(8) == 0x2020202020202020
  {
    assert SpaceWord(1) == 0x20 && SpaceWord(2) == 0x2020;
    assert SpaceWord(5) == 0x2020202020 && SpaceWord(6) == 0x202020202020;
  }

  // Comparing a word with the word of spaces compares every byte.
  lemma {:induction false} WordOfSpaces(b: seq<Byte>)
    ensures Word(b) == SpaceWord(|b|) <==> forall i | 0 <= i < |b| :: b[i] == SPACE
  {
    if b != [] {
      WordOfSpaces(b[1..]);
      assert forall i | 1 <= i < |b| :: b[i] == b[1..][i - 1];
    }
  }

  lemma {:induction false} PlainEndIs(s: seq<Byte>, end: nat)
    requires end <= |s| && forall i | end <= i < |s| :: s[i] == SPACE
    ensures PlainEnd(s) == PlainEnd(s[..end])
    decreases |s|
  {
    if end < |s| {
      PlainEndIs(s[..|s| - 1], end);
      assert s[..|s| - 1][..end] == s[..end];
    } else {
      assert s[..end] == s;
    }
  }

  lemma NoSpaceAtEnd(s: seq<Byte>)
    requires s != [] ==> s[|s| - 1] != SPACE
    ensures PlainEnd(s) == |s|
  {
  }

  // Everything behind the result is a space, and what is before it does not end in one.
  lemma {:induction false} PlainEndMeans(s: seq<Byte>)
    ensures var r := PlainEnd(s);
      (forall i | r <= i < |s| :: s[i] == SPACE) && (r > 0 ==> s[r - 1] != SPACE)
  {
    if s != [] && s[|s| - 1] == SPACE {
      PlainEndMeans(s[..|s| - 1]);
    }
  }

  function Below4(x: nat): (r: nat)
    ensures r <= x < r + 4 && r % 4 == 0
  {
    x / 4 * 4
  }

  function Below8(x: nat): (r: nat)
    ensures r <= x < r + 8 && r % 8 == 0
  {
    x / 8 * 8
  }

  // x / width * width
  function AlignedBelow(x: nat, width: nat): (r: nat)
    requires width in {4, 8}
    ensures r <= x < r + width && (if width == 4 then r % 4 == 0 else r % 8 == 0)
  {
    if width == 4 then Below4(x) else Below8(x)
  }

  const SHORT: nat := 20

  lemma WordBelow(end: nat, start: nat, width: nat)
    requires width in {4, 8} && start < end && start % width == 0 && end % width == 0
    ensures end - width >= start && (end - width) % width == 0
  {
    if width == 4 {
      assert end % 4 == 0 && start % 4 == 0;
    } else {
      assert end % 8 == 0 && start % 8 == 0;
    }
  }

  // Whole words from end0 down to startWords, both multiples of the width: each lies in the buffer.
  method SkipWords(s: seq<Byte>, ptr: nat, width: nat, startWords: nat, end0: nat) returns (end: nat)
    requires width in {4, 8} && ptr <= startWords < end0 <= ptr + |s|
    requires startWords % width == 0 && end0 % width == 0
    requires forall i | end0 - ptr <= i < |s| :: s[i] == SPACE
    ensures startWords <= end <= end0
    ensures forall i | end - ptr <= i < |s| :: s[i] == SPACE
  {
    end := end0;
    WordBelow(end, startWords, width);
    while end > startWords && Word(s[end - width - ptr..end - ptr]) == SpaceWord(width)
      invariant startWords <= end <= end0 && end % width == 0 && (end > startWords ==> end - width >= startWords)
      invariant forall i | end - ptr <= i < |s| :: s[i] == SPACE
    {
      WordBelow(end, startWords, width);
      ghost var word := s[end - width - ptr..end - ptr];
      WordOfSpaces(word);
      forall i | end - width - ptr <= i < end - ptr ensures s[i] == SPACE {
        assert word[i - (end - width - ptr)] == s[i];
      }
      end := end - width;
      if end > startWords { WordBelow(end, startWords, width); }
    }
  }

  // The result is a position in s; ptr is the address of s[0] and width the size of an int.
  method SkipTrailingSpace(s: seq<Byte>, ptr: nat, width: nat) returns (result: nat)
    requires width in {4, 8} && (|s| > SHORT ==> ptr >= width)
    ensures result == PlainEnd(s)
  {
    hide PlainEnd, AlignedBelow;
    var end := ptr + |s|;
    if |s| > SHORT {
      var endWords := AlignedBelow(end, width);
      var startWords := AlignedBelow(ptr + width - 1, width);
      if endWords > ptr {
        while end > endWords && s[end - 1 - ptr] == SPACE
          invariant endWords <= end <= ptr + |s|
          invariant forall i | end - ptr <= i < |s| :: s[i] == SPACE
        {
          end := end - 1;
        }
        if s[end - 1 - ptr] == SPACE && startWords < endWords {
          end := SkipWords(s, ptr, width, startWords, end);
        }
      }
    }
    while end > ptr && s[end - 1 - ptr] == SPACE
      invariant ptr <= end <= ptr + |s|
      invariant forall i | end - ptr <= i < |s| :: s[i] == SPACE
    {
      end := end - 1;
    }
    result := end - ptr;
    PlainEndIs(s, result);
    NoSpaceAtEnd(s[..result]);
  }
}

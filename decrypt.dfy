/**
 The decrypt text effect of the portfolio page: a label is first shown
 scrambled (every non-space character replaced by a symbol), then on a
 recurring tick it is revealed from the left as a cursor advances, until the
 whole literal text is shown and the tick stops.

 The cursor of the page script is a number advanced by 0.3 per tick. Here it
 is the tick count `k`, so "index < cursor" reads `10 * index < 3 * k`.
 Each random symbol pick is an arbitrary index into the alphabet.
 */
module Decrypt {

  /** The fixed symbol alphabet, character for character as the script has it
      (including the three characters U+00E2 U+20AC U+201D of a mis-encoded dash). */
  const Alphabet: string := "!<>-_\\/[]{}\U{00E2}\U{20AC}\U{201D}=+*^?#________"

  /** Position `i` is revealed at tick `k`: i < 0.3 * k. */
  predicate Revealed(i: int, k: nat) {
    10 * i < 3 * k
  }

  /** The cursor has reached the text length at tick `k`: 0.3 * k >= n. */
  predicate Resolved(n: nat, k: nat) {
    10 * n <= 3 * k
  }

  /** What any frame displayed at tick `k` looks like: same length as the text,
      revealed positions show the text, spaces stay spaces, and every other
      position shows some alphabet symbol. */
  predicate IsFrame(text: string, k: nat, f: string) {
    && |f| == |text|
    && forall i :: 0 <= i < |text| ==>
         if Revealed(i, k) then f[i] == text[i]
         else if text[i] == ' ' then f[i] == ' '
         else f[i] in Alphabet
  }

  /** One random alphabet index per position of a text of length `n`. */
  predicate ValidPicks(picks: seq<int>, n: nat) {
    && |picks| == n
    && forall i :: 0 <= i < n ==> 0 <= picks[i] < |Alphabet|
  }

  /** The frame one tick maps the text to, given the random picks of that tick. */
  function Frame(text: string, k: nat, picks: seq<int>): (f: string)
    requires ValidPicks(picks, |text|)
    ensures IsFrame(text, k, f)
  {
    seq(|text|, i requires 0 <= i < |text| =>
      if Revealed(i, k) then text[i]
      else if text[i] == ' ' then ' '
      else Alphabet[picks[i]])
  }

  /** Position of a character in a string. */
  function IndexOf(s: string, c: char): (i: nat)
    requires c in s
    ensures i < |s| && s[i] == c
  {
    if s[0] == c then 0 else 1 + IndexOf(s[1..], c)
  }

  /** Every frame allowed by `IsFrame` is produced by `Frame` for some picks:
      the specification and the tick's map describe the same set of frames. */
  lemma FrameComplete(text: string, k: nat, f: string)
    requires IsFrame(text, k, f)
    ensures exists picks :: ValidPicks(picks, |text|) && Frame(text, k, picks) == f
  {
    var picks := seq(|text|, i requires 0 <= i < |text| =>
      if !Revealed(i, k) && text[i] != ' ' then IndexOf(Alphabet, f[i]) else 0);
    assert ValidPicks(picks, |text|);
    assert Frame(text, k, picks) == f;
  }

  /** A frame never substitutes a space and never introduces one. */
  lemma SpacesPreserved(text: string, k: nat, f: string, i: int)
    requires IsFrame(text, k, f) && 0 <= i < |text|
    ensures f[i] == ' ' <==> text[i] == ' '
  {
  }

  /** Number of positions revealed at tick `k` in a text of length `n`. */
  function RevealedCount(n: nat, k: nat): (m: nat)
    ensures m <= n
    ensures forall i :: 0 <= i < n ==> (i < m <==> Revealed(i, k))
  {
    var c := (3 * k + 9) / 10;
    if c < n then c else n
  }

  /** The revealed part of a frame is a prefix of the text, and that prefix
      only grows from one tick to the next. */
  lemma RevealedPrefix(text: string, k: nat, f: string)
    requires IsFrame(text, k, f)
    ensures f[..RevealedCount(|text|, k)] == text[..RevealedCount(|text|, k)]
    ensures RevealedCount(|text|, k) <= RevealedCount(|text|, k + 1)
  {
  }

  /** The first tick at which the cursor has reached the text length. */
  function ResolveTick(n: nat): (k: nat)
    ensures Resolved(n, k)
    ensures k == 0 || !Resolved(n, k - 1)
  {
    (10 * n + 2) / 3
  }

  /** Once resolved, the only frame there is is the text itself. */
  lemma ResolvedFrameIsText(text: string, k: nat, f: string)
    requires IsFrame(text, k, f) && Resolved(|text|, k)
    ensures f == text
  {
  }

  /** What one tick leaves on the element, and whether it stops the interval. */
  datatype Tick = Tick(shown: string, cleared: bool)

  /** One tick of the interval at tick count `k`: show the frame, and when the
      cursor has reached the length, stop and show the literal text. */
  function DecryptTick(text: string, k: nat, picks: seq<int>): (t: Tick)
    requires ValidPicks(picks, |text|)
    ensures IsFrame(text, k, t.shown)
    ensures t.cleared <==> Resolved(|text|, k)
    ensures t.cleared ==> t.shown == text
  {
    var frame := Frame(text, k, picks);
    if Resolved(|text|, k) then Tick(text, true) else Tick(frame, false)
  }

  /** The scrambled frame: spaces kept, every other character a random symbol. */
  method ScrambleText(text: string) returns (s: string)
    ensures IsFrame(text, 0, s)
  {
    s := "";
    for i := 0 to |text|
      invariant |s| == i
      invariant forall j :: 0 <= j < i ==> if text[j] == ' ' then s[j] == ' ' else s[j] in Alphabet
    {
      if text[i] == ' ' {
        s := s + " ";
      } else {
        var p :| 0 <= p < |Alphabet|;
        s := s + [Alphabet[p]];
      }
    }
  }

  /** One run of the decrypt interval, from cursor 0 until it clears itself.
      Returns the text shown after each tick. */
  method DecryptFrames(text: string) returns (frames: seq<string>)
    ensures |frames| == ResolveTick(|text|) + 1
    ensures forall j :: 0 <= j < |frames| ==> IsFrame(text, j, frames[j])
    ensures forall j :: 0 <= j < |frames| - 1 ==> !Resolved(|text|, j)
    ensures frames[|frames| - 1] == text
  {
    var k: nat := 0;
    var cleared := false;
    frames := [];
    while !cleared
      invariant |frames| == k
      invariant forall j :: 0 <= j < k ==> IsFrame(text, j, frames[j])
      invariant forall j :: 0 <= j < k - 1 ==> !Resolved(|text|, j)
      invariant !cleared ==> k <= ResolveTick(|text|) && (k == 0 || !Resolved(|text|, k - 1))
      invariant cleared ==> k == ResolveTick(|text|) + 1 && frames[k - 1] == text
      decreases if cleared then 0 else ResolveTick(|text|) + 1 - k
    {
      assert ValidPicks(seq(|text|, _ => 0), |text|);
      var picks :| ValidPicks(picks, |text|);
      var t := DecryptTick(text, k, picks);
      frames := frames + [t.shown];
      cleared := t.cleared;
      k := k + 1;
    }
  }

  /** A label element running the effect; `shown` is its displayed text. */
  class DecryptEffect {
    const text: string
    var shown: string

    /** Captures the label's literal text and shows it scrambled. */
    constructor (dataText: string)
      ensures text == dataText
      ensures IsFrame(text, 0, shown)
    {
      text := dataText;
      shown := "";
      new;
      Scramble();
    }

    method Scramble()
      modifies this
      ensures IsFrame(text, 0, shown)
    {
      shown := ScrambleText(text);
    }

    /** Runs one decrypt interval to its end; the label then shows its text. */
    method Decrypt() returns (frames: seq<string>)
      modifies this
      ensures |frames| == ResolveTick(|text|) + 1
      ensures forall j :: 0 <= j < |frames| ==> IsFrame(text, j, frames[j])
      ensures shown == text
    {
      frames := DecryptFrames(text);
      shown := frames[|frames| - 1];
    }
  }
}

/** Letter numbering of list labels: 1 is A, 26 is Z, 27 is AA. */
module UpperAlpha {

  predicate IsLetter(c: char) {
    'A' <= c <= 'Z'
  }

  function Letter(k: nat): (c: char)
    requires k < 26
    ensures IsLetter(c)
  {
    'A' + k as char
  }

  function Digit(c: char): nat
    requires IsLetter(c)
  {
    (c - 'A') as nat + 1
  }

  predicate IsLabel(s: string) {
    forall k :: 0 <= k < |s| ==> IsLetter(s[k])
  }

  /** The number a label stands for: base 26 with digits from one. */
  function Value(s: string): nat
    requires IsLabel(s)
  {
    if s == "" then 0 else 26 * Value(s[..|s| - 1]) + Digit(s[|s| - 1])
  }

  /** The labels of all numbers, by their last letter. */
  function Label(n: nat): (s: string)
    ensures IsLabel(s)
  {
    if n == 0 then "" else Label((n - 1) / 26) + [Letter((n - 1) % 26)]
  }

  function Reversed(s: string): string {
    if s == "" then "" else Reversed(s[1..]) + [s[0]]
  }

  lemma {:induction false} ReversedAppend(s: string, c: char)
    ensures Reversed(s + [c]) == [c] + Reversed(s)
  {
    if s == "" {
    } else {
      ReversedAppend(s[1..], c);
      assert (s + [c])[1..] == s[1..] + [c];
    }
  }

  /** The loop of `upper_alpha`: letters are pushed last first, then reversed. */
  method Render(index: nat) returns (text: string)
    ensures text == Label(index)
  {
    var n := index;
    var out: string := "";
    while n > 0
      invariant Label(index) == Label(n) + Reversed(out)
    {
      ghost var before := n;
      n := n - 1;
      ReversedAppend(out, Letter(n % 26));
      out := out + [Letter(n % 26)];
      n := n / 26;
      assert Label(before) == Label(n) + [Letter((before - 1) % 26)];
    }
    text := Reversed(out);
  }

  /** The numbering is a bijection between the numbers and the labels. */
  lemma {:induction false} ValueUndoesLabel(n: nat)
    ensures Value(Label(n)) == n
  {
    if n == 0 {
    } else {
      ValueUndoesLabel((n - 1) / 26);
      var s := Label(n);
      assert s[..|s| - 1] == Label((n - 1) / 26);
    }
  }

  /** One digit comes off the end. */
  lemma LastDigit(front: nat, d: nat)
    requires 1 <= d <= 26
    ensures (26 * front + d - 1) / 26 == front && (26 * front + d - 1) % 26 == d - 1
  {}

  lemma LetterUndoesDigit(c: char)
    requires IsLetter(c)
    ensures 1 <= Digit(c) <= 26 && Letter(Digit(c) - 1) == c
  {}

  lemma LabelStep(n: nat)
    requires n > 0
    ensures Label(n) == Label((n - 1) / 26) + [Letter((n - 1) % 26)]
  {}

  lemma {:induction false} LabelUndoesValue(s: string)
    requires IsLabel(s)
    ensures Label(Value(s)) == s
  {
    if s == "" {
    } else {
      var front, d := s[..|s| - 1], Digit(s[|s| - 1]);
      var n := Value(s);
      hide Label, Value, Digit, Letter, IsLetter;
      ValueStep(s);
      LabelUndoesValue(front);
      LetterUndoesDigit(s[|s| - 1]);
      LastDigit(Value(front), d);
      LabelStep(n);
      assert s == front + [s[|s| - 1]];
    }
  }

  /** Shorter labels first, labels of one length in alphabetical order. */
  predicate Shortlex(s: string, t: string) {
    |s| < |t| || (|s| == |t| && Alphabetical(s, t))
  }

  predicate Alphabetical(s: string, t: string)
    requires |s| == |t|
  {
    if s == "" then false
    else
      var n := |s| - 1;
      Alphabetical(s[..n], t[..n]) || (s[..n] == t[..n] && s[n] < t[n])
  }

  lemma {:induction false} LongerLabelsAreLarger(s: string, t: string)
    requires IsLabel(s) && IsLabel(t) && |s| < |t|
    ensures Value(s) < Value(t)
  {
    if s == "" {
    } else {
      LongerLabelsAreLarger(s[..|s| - 1], t[..|t| - 1]);
    }
  }

  /** Numbers of two digits or more compare by all but the last digit first. */
  lemma LastDigitDecides(a: nat, b: nat, c: char, d: char)
    requires IsLetter(c) && IsLetter(d)
    ensures 26 * a + Digit(c) < 26 * b + Digit(d) <==> a < b || (a == b && c < d)
    ensures 26 * a + Digit(c) == 26 * b + Digit(d) <==> a == b && c == d
  {}

  lemma ValueStep(s: string)
    requires IsLabel(s) && s != ""
    ensures Value(s) == 26 * Value(s[..|s| - 1]) + Digit(s[|s| - 1])
  {}

  lemma {:induction false} AlphabeticalIsByValue(s: string, t: string)
    requires IsLabel(s) && IsLabel(t) && |s| == |t|
    ensures Alphabetical(s, t) <==> Value(s) < Value(t)
    ensures s == t <==> Value(s) == Value(t)
  {
    if s == "" {
    } else {
      hide Value, Digit;
      var n := |s| - 1;
      AlphabeticalIsByValue(s[..n], t[..n]);
      ValueStep(s);
      ValueStep(t);
      LastDigitDecides(Value(s[..n]), Value(t[..n]), s[n], t[n]);
      assert s == s[..n] + [s[n]] && t == t[..n] + [t[n]];
    }
  }

  /** Later labels are later in shortlex order, strictly. */
  lemma LabelsAscend(m: nat, n: nat)
    ensures m < n <==> Shortlex(Label(m), Label(n))
  {
    ValueUndoesLabel(m);
    ValueUndoesLabel(n);
    var s, t := Label(m), Label(n);
    if |s| < |t| {
      LongerLabelsAreLarger(s, t);
    } else if |t| < |s| {
      LongerLabelsAreLarger(t, s);
    } else {
      AlphabeticalIsByValue(s, t);
    }
  }
}

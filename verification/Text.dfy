/** The string routines of src/utils.c. */
module Text {
  import opened Sequences
  import opened Wire

  /** A char of the program is a signed byte. */
  function Signed(b: byte): int {
    if b < 128 then b as int else b as int - 256
  }

  /** The test UTILS_compareCaseInsensitive makes of two characters, in its own order. */
  predicate SameLetter(a: byte, b: byte) {
    a == b || Signed(a) == Signed(b) - 32
  }

  predicate Matches(a: Bytes, b: Bytes) {
    |a| == |b| && forall i :: 0 <= i < |a| ==> SameLetter(a[i], b[i])
  }

  method CompareCaseInsensitive(a: Bytes, b: Bytes) returns (different: int)
    ensures different == if Matches(a, b) then 0 else 1
  {
    if |a| != |b| {
      return 1;
    }
    different := 0;
    for i := 0 to |a|
      invariant different == if forall j :: 0 <= j < i ==> SameLetter(a[j], b[j]) then 0 else 1
    {
      if a[i] != b[i] && Signed(a[i]) != Signed(b[i]) - 32 {
        different := 1;
      }
    }
  }

  predicate IsUpper(b: byte) {
    'A' <= b as char <= 'Z'
  }

  predicate IsLower(b: byte) {
    'a' <= b as char <= 'z'
  }

  function ToUpper(b: byte): byte {
    if IsLower(b) then b - 32 else b
  }

  /** Equality up to case, as the routine's name promises it. */
  predicate EqualUpToCase(a: Bytes, b: Bytes) {
    |a| == |b| && forall i :: 0 <= i < |a| ==> ToUpper(a[i]) == ToUpper(b[i])
  }

  /** The two ways in which the test of one pair of characters is not equality up to case: a lower-case letter
      against its upper-case form is rejected, and a character that is no lower-case letter is taken for the one
      32 places below it. */
  predicate Missed(a: byte, b: byte) {
    IsLower(a) && IsUpper(b) && ToUpper(a) == b
  }

  predicate Confused(a: byte, b: byte) {
    !IsLower(b) && Signed(a) == Signed(b) - 32
  }

  lemma SameLetterIff(a: byte, b: byte)
    ensures SameLetter(a, b) <==> (ToUpper(a) == ToUpper(b) && !Missed(a, b)) || Confused(a, b)
    ensures !(Confused(a, b) && ToUpper(a) == ToUpper(b))
  {
  }

  /** What the routine accepts, for all texts, in terms of case. */
  lemma MatchesIff(a: Bytes, b: Bytes)
    requires |a| == |b|
    ensures Matches(a, b) <==> forall i :: 0 <= i < |a| ==>
              (ToUpper(a[i]) == ToUpper(b[i]) && !(IsLower(a[i]) && IsUpper(b[i]))) || Confused(a[i], b[i])
  {
    forall i | 0 <= i < |a|
      ensures SameLetter(a[i], b[i]) <==>
              (ToUpper(a[i]) == ToUpper(b[i]) && !(IsLower(a[i]) && IsUpper(b[i]))) || Confused(a[i], b[i])
    {
      SameLetterIff(a[i], b[i]);
    }
  }

  /** The characters for which the test is equality up to case, whatever they are compared with: the capitals, and
      those that are no letters and have no character, or only zero, 32 places above them. */
  predicate IsSafe(c: byte) {
    IsUpper(c) || c == 96 || 123 <= c < 128 || c == 224
  }

  lemma SafeCharacter(c: byte, d: byte)
    requires IsSafe(c) && d != 0
    ensures SameLetter(c, d) <==> ToUpper(c) == ToUpper(d)
  {
  }

  /** What any other character goes wrong with: a lower-case letter with its capital, the rest with what lies 32
      places above. */
  function Partner(c: byte): byte {
    if IsLower(c) then c - 32 else if c < 224 then c + 32 else c - 224
  }

  lemma UnsafeCharacter(c: byte)
    requires !IsSafe(c)
    ensures Partner(c) != 0 && !(SameLetter(c, Partner(c)) <==> ToUpper(c) == ToUpper(Partner(c)))
  {
  }

  /** A registered name is compared as the routine's name promises, with everything that may be typed, if and only if
      all its characters are safe. No text of the program holds a zero. */
  lemma MatchesKeepsPromiseIff(name: Bytes)
    requires 0 !in name
    ensures (forall typed :: 0 !in typed ==> (Matches(name, typed) <==> EqualUpToCase(name, typed)))
            <==> forall c :: c in name ==> IsSafe(c)
  {
    if forall c :: c in name ==> IsSafe(c) {
      forall typed | 0 !in typed ensures Matches(name, typed) <==> EqualUpToCase(name, typed) {
        forall i | 0 <= i < |name| && |name| == |typed|
          ensures SameLetter(name[i], typed[i]) <==> ToUpper(name[i]) == ToUpper(typed[i])
        {
          SafeCharacter(name[i], typed[i]);
        }
      }
    } else {
      var k :| 0 <= k < |name| && !IsSafe(name[k]);
      UnsafeCharacter(name[k]);
      var typed := name[k := Partner(name[k])];
      assert 0 !in typed && typed[k] == Partner(name[k]);
      assert forall i :: 0 <= i < |name| && i != k ==> typed[i] == name[i];
      OneCharacterDecides(name, typed, k);
    }
  }

  lemma OneCharacterDecides(a: Bytes, b: Bytes, k: nat)
    requires |a| == |b| && k < |a| && forall i :: 0 <= i < |a| && i != k ==> a[i] == b[i]
    ensures Matches(a, b) <==> SameLetter(a[k], b[k])
    ensures EqualUpToCase(a, b) <==> ToUpper(a[k]) == ToUpper(b[k])
  {
  }

  /** A registered name `mia` is not found when the user types `MIA`. */
  lemma LowerCaseNameIsMissed()
    ensures EqualUpToCase(Ascii("mia"), Ascii("MIA")) && !Matches(Ascii("mia"), Ascii("MIA"))
    ensures Matches(Ascii("MIA"), Ascii("mia"))
  {
    var lower, upper := Ascii("mia"), Ascii("MIA");
    assert !SameLetter(lower[0], upper[0]);
    assert SameLetter(upper[0], lower[0]) && SameLetter(upper[1], lower[1]) && SameLetter(upper[2], lower[2]);
  }

  /** A registered name `mia1` is found when the user types `miaQ`. */
  lemma OtherNameIsTaken()
    ensures Matches(Ascii("mia1"), Ascii("miaQ")) && !EqualUpToCase(Ascii("mia1"), Ascii("miaQ"))
  {
    var name, typed := Ascii("mia1"), Ascii("miaQ");
    assert forall i :: 0 <= i < 3 ==> name[i] == typed[i];
    assert SameLetter(name[3], typed[3]) && ToUpper(name[3]) != ToUpper(typed[3]);
  }

  /** A typed command word is compared with an upper-case keyword, and there the routine keeps its promise. */
  lemma KeywordsMatchInAnyCase(keyword: Bytes, word: Bytes)
    requires forall i :: 0 <= i < |keyword| ==> IsUpper(keyword[i])
    ensures Matches(keyword, word) <==> EqualUpToCase(keyword, word)
  {
    if |keyword| == |word| {
      MatchesIff(keyword, word);
    }
  }

  function Without(s: Bytes, ch: byte): Bytes {
    if s == [] then [] else (if s[0] == ch then [] else [s[0]]) + Without(s[1..], ch)
  }

  /** UTILS_compare looks at `size` bytes of both strings. */
  method Compare(a: Bytes, b: Bytes, size: nat) returns (different: int)
    requires size <= |a| && size <= |b|
    ensures different == if a[..size] == b[..size] then 0 else 1
  {
    for i := 0 to size
      invariant a[..i] == b[..i]
    {
      if a[i] != b[i] {
        assert a[..size][i] != b[..size][i];
        return 1;
      }
    }
    return 0;
  }

  lemma {:induction false} WithoutSkips(s: Bytes, i: nat, ch: byte)
    requires i < |s| && s[i] == ch
    ensures Without(s, ch) == Without(s[..i] + s[i + 1..], ch)
  {
    var t := s[..i] + s[i + 1..];
    if i == 0 {
      assert t == s[1..];
    } else {
      WithoutSkips(s[1..], i - 1, ch);
      assert t[1..] == s[1..][..i - 1] + s[1..][i..];
    }
  }

  lemma {:induction false} WithoutKeeps(s: Bytes, ch: byte)
    requires ch !in s
    ensures Without(s, ch) == s
  {
    if s != [] {
      WithoutKeeps(s[1..], ch);
      assert s == [s[0]] + s[1..];
    }
  }

  lemma WithoutStep(s: Bytes, ch: byte)
    ensures Without(s, ch) == if s == [] then [] else (if s[0] == ch then [] else [s[0]]) + Without(s[1..], ch)
  {
  }

  lemma {:induction false} WithoutAppend(s: Bytes, t: Bytes, ch: byte)
    ensures Without(s + t, ch) == Without(s, ch) + Without(t, ch)
  {
    hide Without;
    WithoutStep(s, ch);
    if s == [] {
      assert s + t == t && [] + Without(t, ch) == Without(t, ch);
    } else {
      var first, rest, more := if s[0] == ch then [] else [s[0]], Without(s[1..], ch), Without(t, ch);
      WithoutAppend(s[1..], t, ch);
      WithoutStep(s + t, ch);
      assert (s + t)[1..] == s[1..] + t;
      Regroup(first, rest, more);
    }
  }

  /** Removing keeps every other character as often as it was, and none of this one. */
  lemma {:induction false} WithoutCounts(s: Bytes, ch: byte)
    ensures multiset(Without(s, ch)) == multiset(s)[ch := 0]
  {
    if s != [] {
      WithoutCounts(s[1..], ch);
      assert s == [s[0]] + s[1..];
    }
  }

  /** A buffer that holds a text: its bytes up to the first zero. */
  ghost predicate Holds(s: Bytes, text: Bytes) {
    0 !in text && text + [0] <= s
  }

  /** There is one such text only. */
  lemma HoldsIs(s: Bytes, text: Bytes)
    requires Holds(s, text)
    ensures IndexOf(s, 0) == |text| < |s| && text == s[..|text|]
  {
    var t := text + [0];
    assert forall i :: 0 <= i < |t| ==> s[i] == t[i];
    assert s[|text|] == 0 && forall i :: 0 <= i < |text| ==> s[i] == text[i];
  }

  /** strchr, as the position it finds or that of the terminator; ch is not the terminator itself. */
  method Find(p: array<byte>, ch: byte, ghost text: Bytes) returns (i: nat)
    requires Holds(p[..], text) && ch != 0
    ensures i <= |text| < p.Length && p[i] == if i < |text| then ch else 0
    ensures i == |text| ==> ch !in text
  {
    assert p[|text|] == (text + [0])[|text|];
    i := 0;
    while p[i] != 0 && p[i] != ch
      invariant i <= |text| < p.Length && ch !in text[..i]
      decreases |text| - i
    {
      assert p[i] == (text + [0])[i];
      i := i + 1;
    }
    assert p[i] == (text + [0])[i];
    assert i == |text| ==> text[..i] == text;
  }

  /** strcpy of the text behind position i onto position i: everything moves one place to the left. */
  method ShiftLeft(p: array<byte>, i: nat, ghost text: Bytes)
    requires Holds(p[..], text) && i < |text|
    modifies p
    ensures Holds(p[..], text[..i] + text[i + 1..])
  {
    HoldsIs(p[..], text);
    ghost var s, n: nat := p[..], |text|;
    var k: nat := i;
    while p[k + 1] != 0
      invariant i <= k < n < |s| == p.Length
      invariant forall j :: i <= j < k ==> p[j] == s[j + 1]
      invariant forall j :: 0 <= j < i || k <= j < p.Length ==> p[j] == s[j]
      decreases n - k
    {
      assert s[n] == 0 && p[k + 1] == s[k + 1];
      p[k] := p[k + 1];
      k := k + 1;
    }
    p[k] := 0;
    ghost var t := text[..i] + text[i + 1..];
    assert k == n - 1 && forall j :: 0 <= j < n ==> p[j] == (t + [0])[j];
  }

  /** UTILS_removeChar. */
  method RemoveChar(p: array<byte>, ch: byte, ghost text: Bytes)
    requires Holds(p[..], text) && ch != 0
    modifies p
    ensures Holds(p[..], Without(text, ch))
  {
    ghost var now := text;
    var i: nat := Find(p, ch, now);
    while p[i] != 0
      invariant Holds(p[..], now) && i <= |now| < p.Length && p[i] == if i < |now| then ch else 0
      invariant i == |now| ==> ch !in now
      invariant Without(now, ch) == Without(text, ch)
      decreases |now|
    {
      assert p[..][i] == (now + [0])[i];
      WithoutSkips(now, i, ch);
      ShiftLeft(p, i, now);
      now := now[..i] + now[i + 1..];
      i := Find(p, ch, now);
    }
    WithoutKeeps(now, ch);
  }
}

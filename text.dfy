/** Case folding and substring search on strings, the two string operations the
    search handler applies to each query and each post field. */
module Text {

  predicate IsUpper(c: char) {
    'A' <= c <= 'Z'
  }

  /** ASCII lower-casing of one character; every other character is left alone. */
  function LowerChar(c: char): (r: char)
    ensures !IsUpper(r)
    ensures IsUpper(c) || r == c
  {
    if IsUpper(c) then (c as int - 'A' as int + 'a' as int) as char else c
  }

  /** Lower-casing of a whole string, character by character (str.lower()). */
  function Lower(s: string): (r: string)
    ensures |r| == |s|
    ensures forall i :: 0 <= i < |s| ==> r[i] == LowerChar(s[i])
  {
    if s == [] then [] else [LowerChar(s[0])] + Lower(s[1..])
  }

  /** `pat in text` for Python strings: pat occurs somewhere in text. */
  predicate Contains(text: string, pat: string)
    decreases |text|
  {
    pat <= text || (text != [] && Contains(text[1..], pat))
  }

  /** The independent reference: pat is the slice of text that starts at i. */
  ghost predicate OccursAt(text: string, pat: string, i: int) {
    0 <= i && i + |pat| <= |text| && text[i..i + |pat|] == pat
  }

  /** Every occurrence Contains reports is a real one. */
  lemma {:induction false} ContainsSound(text: string, pat: string) returns (i: int)
    requires Contains(text, pat)
    ensures OccursAt(text, pat, i)
    decreases |text|
  {
    if pat <= text {
      i := 0;
    } else {
      var j := ContainsSound(text[1..], pat);
      assert text[j + 1..j + 1 + |pat|] == text[1..][j..j + |pat|];
      i := j + 1;
    }
  }

  /** Contains misses no occurrence. */
  lemma {:induction false} ContainsComplete(text: string, pat: string, i: int)
    requires OccursAt(text, pat, i)
    ensures Contains(text, pat)
    decreases i
  {
    if i == 0 {
      assert pat <= text;
    } else {
      assert text[1..][i - 1..i - 1 + |pat|] == text[i..i + |pat|];
      ContainsComplete(text[1..], pat, i - 1);
    }
  }

  /** Contains finds an occurrence exactly when there is one. */
  lemma ContainsIffOccurs(text: string, pat: string)
    ensures Contains(text, pat) <==> exists i :: OccursAt(text, pat, i)
  {
    if Contains(text, pat) {
      var i := ContainsSound(text, pat);
    }
    if i :| OccursAt(text, pat, i) {
      ContainsComplete(text, pat, i);
    }
  }
}

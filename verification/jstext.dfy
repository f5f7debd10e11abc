/**
 * The two JavaScript string built-ins the draft pages use to compare player
 * references: `String.prototype.trim` and `String.prototype.toLowerCase`.
 */
module JsText {

  /**
   * The code points `trim` strips: the WhiteSpace production of the ECMAScript
   * language specification (tab, vertical tab, form feed, U+FEFF and every
   * Unicode space separator) together with the LineTerminator production
   * (line feed, carriage return, U+2028, U+2029).
   */
  predicate IsTrimmable(c: char) {
    var n := c as int;
    || n == 0x09 || n == 0x0A || n == 0x0B || n == 0x0C || n == 0x0D
    || n == 0x20 || n == 0xA0 || n == 0x1680
    || (0x2000 <= n <= 0x200A)
    || n == 0x2028 || n == 0x2029 || n == 0x202F || n == 0x205F
    || n == 0x3000 || n == 0xFEFF
  }

  /** `s` with its leading trimmable characters removed. */
  function TrimStart(s: string): (r: string)
    ensures |r| <= |s|
    ensures forall i :: 0 <= i < |r| ==> r[i] == s[|s| - |r| + i]
    ensures r == [] || !IsTrimmable(r[0])
  {
    if s != [] && IsTrimmable(s[0]) then TrimStart(s[1..]) else s
  }

  /** Everything `TrimStart` removes is trimmable. */
  lemma {:induction false} TrimStartDrops(s: string)
    ensures forall i :: 0 <= i < |s| - |TrimStart(s)| ==> IsTrimmable(s[i])
  {
    if s != [] && IsTrimmable(s[0]) {
      TrimStartDrops(s[1..]);
      forall i | 0 < i < |s| - |TrimStart(s)| ensures IsTrimmable(s[i]) {
        assert s[i] == s[1..][i - 1];
      }
    }
  }

  /** `s` with its trailing trimmable characters removed. */
  function TrimEnd(s: string): (r: string)
    ensures |r| <= |s|
    ensures forall i :: 0 <= i < |r| ==> r[i] == s[i]
    ensures r == [] || !IsTrimmable(r[|r| - 1])
  {
    if s != [] && IsTrimmable(s[|s| - 1]) then TrimEnd(s[..|s| - 1]) else s
  }

  /** Everything `TrimEnd` removes is trimmable. */
  lemma {:induction false} TrimEndDrops(s: string)
    ensures forall i :: |TrimEnd(s)| <= i < |s| ==> IsTrimmable(s[i])
  {
    if s != [] && IsTrimmable(s[|s| - 1]) {
      TrimEndDrops(s[..|s| - 1]);
      forall i | |TrimEnd(s)| <= i < |s| - 1 ensures IsTrimmable(s[i]) {
        assert s[i] == s[..|s| - 1][i];
      }
    }
  }

  /** `String.prototype.trim`. */
  function Trim(s: string): (r: string)
    ensures |r| <= |s|
    ensures r != [] ==> !IsTrimmable(r[0]) && !IsTrimmable(r[|r| - 1])
  {
    TrimEnd(TrimStart(s))
  }

  /** The characters `trim` keeps, at their offset `k` in the input. */
  lemma TrimKeeps(s: string)
    ensures var k := |s| - |TrimStart(s)|;
      && k + |Trim(s)| <= |s|
      && forall i :: 0 <= i < |Trim(s)| ==> Trim(s)[i] == s[k + i]
  {
    var t := TrimStart(s);
    var k := |s| - |t|;
    forall i | 0 <= i < |Trim(s)| ensures Trim(s)[i] == s[k + i] {
      assert Trim(s)[i] == t[i];
    }
  }

  /** Trimmable characters at the end of a suffix `t` of `s` are trimmable in `s`. */
  lemma SuffixTailTrimmable(s: string, t: string, n: nat)
    requires |t| <= |s| && n <= |t|
    requires forall j :: 0 <= j < |t| ==> t[j] == s[|s| - |t| + j]
    requires forall j :: n <= j < |t| ==> IsTrimmable(t[j])
    ensures forall i :: |s| - |t| + n <= i < |s| ==> IsTrimmable(s[i])
  {
    forall i | |s| - |t| + n <= i < |s| ensures IsTrimmable(s[i]) {
      assert s[i] == t[i - (|s| - |t|)];
    }
  }

  /** Everything after the kept part is trimmable. */
  lemma TrimDropsTail(s: string)
    ensures forall i :: |s| - |TrimStart(s)| + |Trim(s)| <= i < |s| ==> IsTrimmable(s[i])
  {
    var t := TrimStart(s);
    TrimEndDrops(t);
    SuffixTailTrimmable(s, t, |TrimEnd(t)|);
  }

  /**
   * What `trim` removes: the trimmed string is the part of the input that
   * starts after `k` leading trimmable characters, everything after it is
   * trimmable too, and nothing is left exactly when every character is
   * trimmable.
   */
  lemma TrimMeaning(s: string)
    ensures var r := Trim(s);
      var k := |s| - |TrimStart(s)|;
      && k + |r| <= |s|
      && (forall i :: 0 <= i < |r| ==> r[i] == s[k + i])
      && (forall i :: 0 <= i < k ==> IsTrimmable(s[i]))
      && (forall i :: k + |r| <= i < |s| ==> IsTrimmable(s[i]))
    ensures Trim(s) == [] <==> forall i :: 0 <= i < |s| ==> IsTrimmable(s[i])
  {
    TrimKeeps(s);
    TrimStartDrops(s);
    TrimDropsTail(s);
    var r := Trim(s);
    if r != [] {
      assert s[|s| - |TrimStart(s)|] == r[0];
    }
  }

  /** Trimming an already trimmed string changes nothing. */
  lemma TrimIdempotent(s: string)
    ensures Trim(Trim(s)) == Trim(s)
  {
    var r := Trim(s);
    if r != [] {
      assert TrimStart(r) == r;
      assert TrimEnd(r) == r;
    }
  }

  /** `toLowerCase` on one character, restricted to ASCII letters. */
  function LowerChar(c: char): char {
    if 'A' <= c <= 'Z' then (c as int + 32) as char else c
  }

  /** `String.prototype.toLowerCase` restricted to the ASCII letters. */
  function ToLower(s: string): (r: string)
    ensures |r| == |s|
    ensures forall i :: 0 <= i < |s| ==> r[i] == LowerChar(s[i])
  {
    seq(|s|, i requires 0 <= i < |s| => LowerChar(s[i]))
  }

  /** Lower-casing twice is lower-casing once. */
  lemma LowerIdempotent(s: string)
    ensures ToLower(ToLower(s)) == ToLower(s)
  {
  }

  /** The key both pages compare display names under: trimmed, then lower-cased. */
  function Normalize(s: string): (r: string)
    ensures |r| <= |s|
    ensures forall i :: 0 <= i < |r| ==> !('A' <= r[i] <= 'Z')
  {
    ToLower(Trim(s))
  }

  /** Lower-casing neither creates nor removes a trimmable character. */
  lemma LowerKeepsTrimmable(c: char)
    ensures IsTrimmable(LowerChar(c)) == IsTrimmable(c)
  {
  }

  /** Normalising a normalised key changes nothing: lower-casing creates no trimmable ends. */
  lemma NormalizeIdempotent(s: string)
    ensures Normalize(Normalize(s)) == Normalize(s)
  {
    var t := Trim(s);
    var l := ToLower(t);
    if l != [] {
      LowerKeepsTrimmable(t[0]);
      LowerKeepsTrimmable(t[|t| - 1]);
      assert !IsTrimmable(l[0]);
      assert !IsTrimmable(l[|l| - 1]);
      assert TrimStart(l) == l;
      assert TrimEnd(l) == l;
    }
    LowerIdempotent(t);
    calc {
      Normalize(l);
      ToLower(Trim(l));
      { assert Trim(l) == l; }
      ToLower(l);
      l;
    }
  }
}

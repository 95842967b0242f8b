/**
 The two string operations the search uses: `String.prototype.trim` and
 `String.prototype.toLowerCase`.
 */
module Text {

  /**
   The characters `trim` removes: the WhiteSpace and LineTerminator
   productions of ECMA-262 (section 12.2 and 12.3 of the 2023 edition),
   with the Unicode space separators (category Zs) written out.
   */
  predicate IsTrimmable(c: char)
  {
    var n := c as int;
    || n == 0x09 || n == 0x0A || n == 0x0B || n == 0x0C || n == 0x0D || n == 0x20
    || n == 0xA0 || n == 0x1680 || (0x2000 <= n <= 0x200A) || n == 0x2028 || n == 0x2029
    || n == 0x202F || n == 0x205F || n == 0x3000 || n == 0xFEFF
  }

  /** `s` without its leading trimmable characters. */
  function TrimStart(s: string): (r: string)
    ensures |r| <= |s| && r == s[|s| - |r|..]
    ensures forall i :: 0 <= i < |s| - |r| ==> IsTrimmable(s[i])
    ensures r == [] || !IsTrimmable(r[0])
  {
    if s != [] && IsTrimmable(s[0]) then TrimStart(s[1..]) else s
  }

  /** `s` without its trailing trimmable characters. */
  function TrimEnd(s: string): (r: string)
    ensures |r| <= |s| && r == s[..|r|]
    ensures forall i :: |r| <= i < |s| ==> IsTrimmable(s[i])
    ensures r == [] || !IsTrimmable(r[|r| - 1])
  {
    if s != [] && IsTrimmable(s[|s| - 1]) then TrimEnd(s[..|s| - 1]) else s
  }

  /**
   `s` is `r` with trimmable characters added on either side, `i` of them in
   front.
   */
  ghost predicate PaddedAt(s: string, r: string, i: int)
  {
    && 0 <= i <= i + |r| <= |s|
    && r == s[i..i + |r|]
    && (forall j :: 0 <= j < i ==> IsTrimmable(s[j]))
    && (forall j :: i + |r| <= j < |s| ==> IsTrimmable(s[j]))
  }

  /** `String.prototype.trim`. */
  function Trim(s: string): (r: string)
    ensures exists i :: PaddedAt(s, r, i)
    ensures r == [] || (!IsTrimmable(r[0]) && !IsTrimmable(r[|r| - 1]))
  {
    var t := TrimStart(s);
    var r := TrimEnd(t);
    assert PaddedAt(s, r, |s| - |t|);
    r
  }

  /** The trimmed string is empty exactly when every character is trimmable. */
  lemma TrimEmptyIff(s: string)
    ensures Trim(s) == [] <==> forall i :: 0 <= i < |s| ==> IsTrimmable(s[i])
  {
    if Trim(s) == [] {
      var t := TrimStart(s);
      assert TrimEnd(t) == [];
    } else {
      var r := Trim(s);
      var i :| PaddedAt(s, r, i);
      assert s[i] == r[0];
    }
  }

  /**
   `Trim` is the only trimming: a window of `s` with nothing but white space
   around it, and no white space at either of its own ends, is `Trim(s)`.
   */
  lemma TrimUnique(s: string, r: string, i: int)
    requires PaddedAt(s, r, i)
    requires r == [] || (!IsTrimmable(r[0]) && !IsTrimmable(r[|r| - 1]))
    ensures r == Trim(s)
  {
    var t := Trim(s);
    var i' :| PaddedAt(s, t, i');
    TrimEmptyIff(s);
    if r == [] {
      assert forall j :: 0 <= j < |s| ==> IsTrimmable(s[j]) by {
        forall j | 0 <= j < |s| ensures IsTrimmable(s[j]) {
          assert j < i || i + |r| <= j;
        }
      }
    } else {
      assert s[i] == r[0] && s[i + |r| - 1] == r[|r| - 1];
      assert t != [];
      assert s[i'] == t[0] && s[i' + |t| - 1] == t[|t| - 1];
      // both windows start at the first and end at the last non-white character
      assert i == i';
      assert i + |r| == i' + |t|;
    }
  }

  /** Trimming twice is trimming once. */
  lemma TrimIdempotent(s: string)
    ensures Trim(Trim(s)) == Trim(s)
  {
    var r := Trim(s);
    assert TrimStart(r) == r;
    assert TrimEnd(r) == r;
  }

  /**
   `toLowerCase` on the ASCII range; every other character is left as it is
   (the full Unicode case mapping is not part of this model).
   */
  function LowerChar(c: char): (d: char)
    ensures 'A' <= c <= 'Z' ==> d as int == c as int + 32
    ensures !('A' <= c <= 'Z') ==> d == c
  {
    if 'A' <= c <= 'Z' then (c as int + 32) as char else c
  }

  function ToLower(s: string): (r: string)
    ensures |r| == |s|
    ensures forall i :: 0 <= i < |s| ==> r[i] == LowerChar(s[i])
  {
    if s == [] then [] else [LowerChar(s[0])] + ToLower(s[1..])
  }

  /** A lower-cased string has no upper-case ASCII letter. */
  lemma ToLowerHasNoUpper(s: string)
    ensures forall i :: 0 <= i < |s| ==> !('A' <= ToLower(s)[i] <= 'Z')
  {
  }

  /** Lower-casing twice is lower-casing once. */
  lemma ToLowerIdempotent(s: string)
    ensures ToLower(ToLower(s)) == ToLower(s)
  {
  }

  /** Strings that differ only in ASCII letter case lower-case to the same string. */
  lemma ToLowerIgnoresCase(s: string, t: string)
    requires |s| == |t|
    requires forall i :: 0 <= i < |s| ==> s[i] == t[i] || LowerChar(s[i]) == t[i] || s[i] == LowerChar(t[i])
    ensures ToLower(s) == ToLower(t)
  {
  }
}

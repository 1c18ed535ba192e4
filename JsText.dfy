/**
 * The JavaScript string operations the snippet list and the server actions
 * rely on: `String.prototype.trim`, `toLowerCase` and `includes`.
 *
 * A JavaScript string is a sequence of UTF-16 code units, so that is what a
 * `JsString` is here; lengths, positions and substring search all work on
 * code units, as they do in JavaScript.
 */
module JsText {

  /** One UTF-16 code unit. */
  type CodeUnit = u: int | 0 <= u < 0x1_0000

  type JsString = seq<CodeUnit>

  /**
   * The code points `trim` removes: WhiteSpace (tab, vertical tab, form feed,
   * space, no-break space, byte order mark and the Unicode "Zs" category)
   * and LineTerminator (line feed, carriage return, line and paragraph
   * separator), sections 12.2 and 12.3 of ECMA-262.
   */
  predicate IsTrimmable(u: CodeUnit) {
    || u == 0x09 || u == 0x0A || u == 0x0B || u == 0x0C || u == 0x0D
    || u == 0x20 || u == 0xA0 || u == 0x1680
    || (0x2000 <= u <= 0x200A)
    || u == 0x2028 || u == 0x2029 || u == 0x202F || u == 0x205F
    || u == 0x3000 || u == 0xFEFF
  }

  /** True when `s` holds a code unit that `trim` keeps. */
  predicate HasVisible(s: JsString) {
    exists i :: 0 <= i < |s| && !IsTrimmable(s[i])
  }

  /** `s` with its leading trimmable code units removed. */
  function TrimStart(s: JsString): (r: JsString)
    ensures |r| <= |s| && r == s[|s| - |r|..]
    ensures forall i :: 0 <= i < |s| - |r| ==> IsTrimmable(s[i])
    ensures r != [] ==> !IsTrimmable(r[0])
  {
    if s != [] && IsTrimmable(s[0]) then TrimStart(s[1..]) else s
  }

  /** `s` with its trailing trimmable code units removed. */
  function TrimEnd(s: JsString): (r: JsString)
    ensures |r| <= |s| && r == s[..|r|]
    ensures forall i :: |r| <= i < |s| ==> IsTrimmable(s[i])
    ensures r != [] ==> !IsTrimmable(r[|r| - 1])
  {
    if s != [] && IsTrimmable(s[|s| - 1]) then TrimEnd(s[..|s| - 1]) else s
  }

  /**
   * `String.prototype.trim`: the part of `s` between its leading and its
   * trailing whitespace. It is empty exactly when `s` holds nothing but
   * whitespace, which is how the server actions test for a blank field.
   */
  function Trim(s: JsString): (r: JsString)
    ensures r == [] <==> !HasVisible(s)
  {
    TrimBlank(s);
    TrimEnd(TrimStart(s))
  }

  lemma TrimBlank(s: JsString)
    ensures TrimEnd(TrimStart(s)) == [] <==> !HasVisible(s)
  {
    var t := TrimStart(s);
    var k := |s| - |t|;
    var r := TrimEnd(t);
    if HasVisible(s) {
      var i :| 0 <= i < |s| && !IsTrimmable(s[i]);
      assert i >= k && t[i - k] == s[i];
      assert r != [];
    } else {
      assert r == [];
    }
  }

  /** ASCII case mapping of one code unit: `A`..`Z` become `a`..`z`. */
  function LowerUnit(u: CodeUnit): CodeUnit {
    if 0x41 <= u <= 0x5A then u + 0x20 else u
  }

  /** `String.prototype.toLowerCase`, restricted to the ASCII letters. */
  function ToLower(s: JsString): (r: JsString)
    ensures |r| == |s|
    ensures forall i :: 0 <= i < |s| ==> r[i] == LowerUnit(s[i])
  {
    seq(|s|, i requires 0 <= i < |s| => LowerUnit(s[i]))
  }

  /** `p` occurs in `t` starting at position `i`. */
  predicate OccursAt(t: JsString, p: JsString, i: int) {
    0 <= i && i + |p| <= |t| && t[i..i + |p|] == p
  }

  /**
   * `t.includes(p)`: `p` occurs somewhere in `t` as a contiguous run of
   * code units (the empty string occurs everywhere).
   */
  function Includes(t: JsString, p: JsString): (r: bool)
    ensures r <==> exists i :: OccursAt(t, p, i)
    decreases |t|
  {
    if OccursAt(t, p, 0) then
      true
    else if t == [] then
      false
    else
      OccursInTail(t, p);
      Includes(t[1..], p)
  }

  /** An occurrence that is not at the front is an occurrence in the tail. */
  lemma OccursInTail(t: JsString, p: JsString)
    requires t != [] && !OccursAt(t, p, 0)
    ensures (exists i :: OccursAt(t, p, i)) <==> (exists i :: OccursAt(t[1..], p, i))
  {
    if i :| OccursAt(t, p, i) {
      assert t[1..][i - 1..i - 1 + |p|] == t[i..i + |p|];
      assert OccursAt(t[1..], p, i - 1);
    }
    if i :| OccursAt(t[1..], p, i) {
      assert t[1..][i..i + |p|] == t[i + 1..i + 1 + |p|];
      assert OccursAt(t, p, i + 1);
    }
  }
}

/**
 * The string operations the CSV binder uses: `String.split(",", -1)`,
 * `String.trim()`, `String.replace(",", "")` and commons-lang's
 * `StringUtils.isBlank`, with the laws the binder relies on.
 */
module JavaText {

  /** `Character.isWhitespace`: Unicode space, line and paragraph separators
      other than the no-break spaces, plus the ASCII controls TAB..CR and FS..US. */
  predicate IsJavaWhitespace(c: char) {
    || c == ' ' || ('\t' <= c <= '\r') || ('\U{1C}' <= c <= '\U{1F}')
    || c == '\U{1680}' || ('\U{2000}' <= c <= '\U{2006}') || ('\U{2008}' <= c <= '\U{200A}')
    || c == '\U{2028}' || c == '\U{2029}' || c == '\U{205F}' || c == '\U{3000}'
  }

  /** `StringUtils.isBlank`: empty, or whitespace only. */
  predicate IsBlank(s: string) {
    forall i :: 0 <= i < |s| ==> IsJavaWhitespace(s[i])
  }

  /** The number of occurrences of `c` in `s`. */
  function Count(s: string, c: char): nat {
    if |s| == 0 then 0 else (if s[0] == c then 1 else 0) + Count(s[1..], c)
  }

  // ---------------------------------------------------------------- split / join

  /**
   * `s.split("\\,", -1)`: the pieces between commas, every empty piece kept,
   * trailing ones included.
   */
  function Split(s: string): (cells: seq<string>)
    ensures |cells| == Count(s, ',') + 1
    ensures forall k :: 0 <= k < |cells| ==> ',' !in cells[k]
  {
    if |s| == 0 then [""]
    else
      var rest := Split(s[1..]);
      if s[0] == ',' then [""] + rest
      else [[s[0]] + rest[0]] + rest[1..]
  }

  /** `String.join(",", cells)`. */
  function Join(cells: seq<string>): string {
    if |cells| == 0 then ""
    else if |cells| == 1 then cells[0]
    else cells[0] + "," + Join(cells[1..])
  }

  /** Joining the cells of a line with commas gives the line back. */
  lemma {:induction false} JoinSplit(s: string)
    ensures Join(Split(s)) == s
  {
    if |s| > 0 {
      var rest := Split(s[1..]);
      JoinSplit(s[1..]);
      if s[0] == ',' {
        assert Split(s) == [""] + rest;
        assert Join(Split(s)) == "" + "," + Join(rest);
      } else {
        var cells := Split(s);
        assert cells == [[s[0]] + rest[0]] + rest[1..];
        if |rest| == 1 {
          assert Join(cells) == [s[0]] + rest[0];
        } else {
          assert cells[1..] == rest[1..];
          assert Join(rest) == rest[0] + "," + Join(rest[1..]);
          assert Join(cells) == [s[0]] + rest[0] + "," + Join(rest[1..]);
        }
      }
      assert s == [s[0]] + s[1..];
    }
  }

  lemma {:induction false} SplitNoComma(a: string)
    requires ',' !in a
    ensures Split(a) == [a]
  {
    if |a| > 0 {
      assert a[0] in a;
      assert forall c :: c in a[1..] ==> c in a;
      SplitNoComma(a[1..]);
      assert a == [a[0]] + a[1..];
    }
  }

  lemma {:induction false} SplitAppend(a: string, b: string)
    requires ',' !in a
    ensures Split(a + "," + b) == [a] + Split(b)
  {
    if |a| == 0 {
      assert a + "," + b == [','] + b;
      assert (a + "," + b)[1..] == b;
    } else {
      assert a[0] in a;
      assert forall c :: c in a[1..] ==> c in a;
      var s := a + "," + b;
      assert s[0] == a[0];
      assert s[1..] == a[1..] + "," + b;
      SplitAppend(a[1..], b);
      assert a == [a[0]] + a[1..];
    }
  }

  /** Splitting the comma-join of comma-free cells gives the cells back. */
  lemma {:induction false} SplitJoin(cells: seq<string>)
    requires |cells| > 0
    requires forall k :: 0 <= k < |cells| ==> ',' !in cells[k]
    ensures Split(Join(cells)) == cells
  {
    if |cells| == 1 {
      SplitNoComma(cells[0]);
    } else {
      SplitJoin(cells[1..]);
      SplitAppend(cells[0], Join(cells[1..]));
      assert cells == [cells[0]] + cells[1..];
    }
  }

  // ---------------------------------------------------------------- trim

  /** The first index of `s` holding a character above U+0020, or `|s|`. */
  function TrimStart(s: string): (i: nat)
    ensures i <= |s|
    ensures forall k :: 0 <= k < i ==> s[k] <= ' '
    ensures i < |s| ==> ' ' < s[i]
  {
    if |s| == 0 || ' ' < s[0] then 0 else 1 + TrimStart(s[1..])
  }

  /** One past the last index of `s` holding a character above U+0020, or 0. */
  function TrimEnd(s: string): (j: nat)
    ensures j <= |s|
    ensures forall k :: j <= k < |s| ==> s[k] <= ' '
    ensures 0 < j ==> ' ' < s[j - 1]
  {
    if |s| == 0 || ' ' < s[|s| - 1] then |s| else TrimEnd(s[..|s| - 1])
  }

  /** `String.trim()`: drop every leading and trailing character at or below U+0020. */
  function Trim(s: string): (r: string)
    ensures r == "" || (' ' < r[0] && ' ' < r[|r| - 1])
  {
    var i, j := TrimStart(s), TrimEnd(s);
    if i < j then s[i..j] else ""
  }

  /** What `trim` removes: the result is empty exactly for an all-space string,
      and otherwise the slice between the first and the last non-space. */
  lemma TrimLaws(s: string)
    ensures Trim(s) == "" <==> forall k :: 0 <= k < |s| ==> s[k] <= ' '
    ensures Trim(s) != "" ==> Trim(s) == s[TrimStart(s)..TrimEnd(s)]
  {
  }

  // ---------------------------------------------------------------- replace

  /** `s.replace(",", "")` for `c == ','`: `s` with every `c` removed, order kept. */
  function RemoveAll(s: string, c: char): (r: string)
    ensures |r| + Count(s, c) == |s|
    ensures forall x :: x in r <==> x in s && x != c
  {
    if |s| == 0 then ""
    else if s[0] == c then RemoveAll(s[1..], c)
    else [s[0]] + RemoveAll(s[1..], c)
  }

  /** Removing the commas leaves a blank string exactly when every
      character of `s` is a comma or whitespace. */
  lemma BlankAfterRemoving(s: string, c: char)
    ensures IsBlank(RemoveAll(s, c)) <==> forall i :: 0 <= i < |s| ==> s[i] == c || IsJavaWhitespace(s[i])
  {
    var r := RemoveAll(s, c);
    if IsBlank(r) {
      forall i | 0 <= i < |s| && s[i] != c ensures IsJavaWhitespace(s[i]) {
        assert s[i] in s;
        assert s[i] in r;
        var j :| 0 <= j < |r| && r[j] == s[i];
      }
    } else {
      var j :| 0 <= j < |r| && !IsJavaWhitespace(r[j]);
      assert r[j] in r;
      var i :| 0 <= i < |s| && s[i] == r[j];
    }
  }
}

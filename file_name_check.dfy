/**
 The file-name sanitiser of the "create file" dialog:
 `title.replace(/[^0-9a-zA-Z.]+/gi, "-").toLowerCase()`.

 The regular expression has no `u` flag, so its `i` flag never lets a
 non-ASCII character match an ASCII class member: the characters it keeps
 are exactly the ASCII digits, the ASCII letters and `.`. Every maximal run
 of other characters (an input `-` among them) becomes one `-`, and the
 result is then lower-cased.
 */
module FileNames {

  predicate IsAsciiDigit(c: char) { '0' <= c <= '9' }
  predicate IsAsciiUpper(c: char) { 'A' <= c <= 'Z' }
  predicate IsAsciiLower(c: char) { 'a' <= c <= 'z' }

  /** Membership in the character class `[0-9a-zA-Z.]`. */
  predicate IsAllowed(c: char) {
    IsAsciiDigit(c) || IsAsciiUpper(c) || IsAsciiLower(c) || c == '.'
  }

  /** A character that may appear in a sanitised name. */
  predicate IsNameChar(c: char) {
    IsAsciiDigit(c) || IsAsciiLower(c) || c == '.' || c == '-'
  }

  /** A string made only of name characters, with no two adjacent dashes. */
  predicate IsSanitized(s: seq<char>) {
    && (forall i :: 0 <= i < |s| ==> IsNameChar(s[i]))
    && (forall i :: 0 <= i < |s| - 1 ==> !(s[i] == '-' && s[i + 1] == '-'))
  }

  // ---------------------------------------------------------------------
  // toLowerCase
  // ---------------------------------------------------------------------

  /** Lower-casing of one character, on the ASCII letters (the only
      characters that reach `toLowerCase` here and can change). */
  function LowerChar(c: char): (r: char)
    ensures !IsAsciiUpper(r)
    ensures IsAllowed(r) <==> IsAllowed(c)
    ensures !IsAsciiUpper(c) ==> r == c
    ensures IsAsciiUpper(c) ==> IsAsciiLower(r) && r as int - c as int == 32
  {
    if IsAsciiUpper(c) then (c as int + 32) as char else c
  }

  function ToLowerCase(s: seq<char>): (r: seq<char>)
    ensures |r| == |s|
    ensures forall i :: 0 <= i < |s| ==> r[i] == LowerChar(s[i])
  {
    if s == [] then [] else [LowerChar(s[0])] + ToLowerCase(s[1..])
  }

  // ---------------------------------------------------------------------
  // replace(/[^0-9a-zA-Z.]+/g, "-")
  // ---------------------------------------------------------------------

  /** Length of the longest prefix of `s` made of characters outside the
      class: what the greedy `+` matches at the start of `s`. */
  function RunLength(s: seq<char>): (k: nat)
    ensures k <= |s|
    ensures forall i :: 0 <= i < k ==> !IsAllowed(s[i])
    ensures k < |s| ==> IsAllowed(s[k])
  {
    if s == [] || IsAllowed(s[0]) then 0 else 1 + RunLength(s[1..])
  }

  /** The global replacement as the regular-expression engine performs it:
      at each position either the class matches nothing (an allowed
      character is copied) or the greedy match takes the whole run, which
      is replaced by one `-`, and the search resumes after it. */
  function RegexReplace(s: seq<char>): (r: seq<char>)
    ensures |r| <= |s|
    ensures r == [] <==> s == []
    decreases |s|
  {
    if s == [] then []
    else if IsAllowed(s[0]) then [s[0]] + RegexReplace(s[1..])
    else ['-'] + RegexReplace(s[RunLength(s)..])
  }

  /** `fileNameCheck` (CreateFileModal.tsx, lines 75-77). */
  function FileNameCheck(title: seq<char>): (r: seq<char>)
    ensures forall i :: 0 <= i < |r| ==> IsNameChar(r[i])
  {
    ReplaceAlphabet(title);
    ToLowerCase(RegexReplace(title))
  }

  /** The same replacement written as a left-to-right scan that remembers
      whether it is inside a run of disallowed characters. */
  function ScanReplace(s: seq<char>, inRun: bool): seq<char>
  {
    if s == [] then []
    else if IsAllowed(s[0]) then [s[0]] + ScanReplace(s[1..], false)
    else if inRun then ScanReplace(s[1..], true)
    else ['-'] + ScanReplace(s[1..], true)
  }

  /** Keeps the characters of the class, in order. */
  function KeepAllowed(s: seq<char>): (r: seq<char>)
    ensures |r| <= |s|
    ensures forall i :: 0 <= i < |r| ==> IsAllowed(r[i])
  {
    if s == [] then []
    else if IsAllowed(s[0]) then [s[0]] + KeepAllowed(s[1..])
    else KeepAllowed(s[1..])
  }

  /** Drops every `-`, keeping the rest in order. */
  function RemoveDashes(s: seq<char>): (r: seq<char>)
    ensures |r| <= |s|
    ensures forall i :: 0 <= i < |r| ==> r[i] != '-'
  {
    if s == [] then []
    else if s[0] == '-' then RemoveDashes(s[1..])
    else [s[0]] + RemoveDashes(s[1..])
  }

  // ---------------------------------------------------------------------
  // The two definitions of the replacement agree
  // ---------------------------------------------------------------------

  /** Inside a run, the scan skips the rest of the run and carries on as
      if no run were open. */
  lemma {:induction false} ScanSkipsRun(s: seq<char>)
    ensures ScanReplace(s, true) == ScanReplace(s[RunLength(s)..], false)
    decreases |s|
  {
    if s != [] && !IsAllowed(s[0]) {
      ScanSkipsRun(s[1..]);
      assert s[1..][RunLength(s[1..])..] == s[RunLength(s)..];
    }
  }

  lemma {:induction false} ScanMatchesRegex(s: seq<char>)
    ensures ScanReplace(s, false) == RegexReplace(s)
    decreases |s|
  {
    if s == [] {
    } else if IsAllowed(s[0]) {
      ScanMatchesRegex(s[1..]);
    } else {
      ScanSkipsRun(s[1..]);
      assert s[1..][RunLength(s[1..])..] == s[RunLength(s)..];
      ScanMatchesRegex(s[RunLength(s)..]);
    }
  }

  // ---------------------------------------------------------------------
  // Properties of the replacement
  // ---------------------------------------------------------------------

  lemma {:induction false} ReplaceAlphabet(s: seq<char>)
    ensures forall i :: 0 <= i < |RegexReplace(s)| ==>
              IsAllowed(RegexReplace(s)[i]) || RegexReplace(s)[i] == '-'
    decreases |s|
  {
    if s == [] {
    } else if IsAllowed(s[0]) {
      ReplaceAlphabet(s[1..]);
    } else {
      ReplaceAlphabet(s[RunLength(s)..]);
    }
  }

  /** The replacement starts with a `-` exactly when the input starts with
      a disallowed character, and with that character otherwise. */
  lemma ReplaceHead(s: seq<char>)
    requires s != []
    ensures RegexReplace(s) != []
    ensures RegexReplace(s)[0] == if IsAllowed(s[0]) then s[0] else '-'
  {
  }

  lemma {:induction false} ReplaceNoDoubleDash(s: seq<char>)
    ensures forall i :: 0 <= i < |RegexReplace(s)| - 1 ==>
              !(RegexReplace(s)[i] == '-' && RegexReplace(s)[i + 1] == '-')
    decreases |s|
  {
    if s == [] {
    } else if IsAllowed(s[0]) {
      ReplaceNoDoubleDash(s[1..]);
    } else {
      var rest := s[RunLength(s)..];
      ReplaceNoDoubleDash(rest);
      if rest != [] {
        ReplaceHead(rest);
      }
    }
  }

  /** A run of disallowed characters contributes nothing to KeepAllowed. */
  lemma {:induction false} KeepAllowedSkipsRun(s: seq<char>, k: nat)
    requires k <= |s|
    requires forall i :: 0 <= i < k ==> !IsAllowed(s[i])
    ensures KeepAllowed(s) == KeepAllowed(s[k..])
    decreases k
  {
    if k > 0 {
      KeepAllowedSkipsRun(s[1..], k - 1);
      assert s[1..][k - 1..] == s[k..];
    }
  }

  lemma {:induction false} ReplaceKeepsAllowed(s: seq<char>)
    ensures RemoveDashes(RegexReplace(s)) == KeepAllowed(s)
    decreases |s|
  {
    if s == [] {
    } else if IsAllowed(s[0]) {
      ReplaceKeepsAllowed(s[1..]);
      assert s[0] != '-';
    } else {
      ReplaceKeepsAllowed(s[RunLength(s)..]);
      KeepAllowedSkipsRun(s, RunLength(s));
    }
  }

  /** On a string of allowed characters and single dashes, the replacement
      changes nothing: each `-` is a run of its own. */
  lemma {:induction false} ReplaceFixesSanitized(s: seq<char>)
    requires forall i :: 0 <= i < |s| ==> IsAllowed(s[i]) || s[i] == '-'
    requires forall i :: 0 <= i < |s| - 1 ==> !(s[i] == '-' && s[i + 1] == '-')
    ensures RegexReplace(s) == s
    decreases |s|
  {
    if s == [] {
    } else if IsAllowed(s[0]) {
      ReplaceFixesSanitized(s[1..]);
    } else {
      assert RunLength(s) == 1 by {
        assert |s| > 1 ==> IsAllowed(s[1]);
      }
      ReplaceFixesSanitized(s[1..]);
    }
  }

  lemma {:induction false} LowerKeepsAllowed(s: seq<char>)
    ensures RemoveDashes(ToLowerCase(s)) == ToLowerCase(RemoveDashes(s))
    decreases |s|
  {
    if s != [] {
      LowerKeepsAllowed(s[1..]);
      assert ToLowerCase(s)[1..] == ToLowerCase(s[1..]);
    }
  }

  // ---------------------------------------------------------------------
  // Properties of fileNameCheck
  // ---------------------------------------------------------------------

  /** Every character of the result is an ASCII digit, a lower-case ASCII
      letter, `.` or `-`, and no two `-` are adjacent. */
  lemma FileNameCheckSanitized(title: seq<char>)
    ensures IsSanitized(FileNameCheck(title))
  {
    var r := RegexReplace(title);
    ReplaceAlphabet(title);
    ReplaceNoDoubleDash(title);
    var out := ToLowerCase(r);
    forall i | 0 <= i < |out|
      ensures IsNameChar(out[i])
    {
      assert IsAllowed(r[i]) || r[i] == '-';
    }
    forall i | 0 <= i < |out| - 1
      ensures !(out[i] == '-' && out[i + 1] == '-')
    {
      assert !(r[i] == '-' && r[i + 1] == '-');
    }
  }

  /** Removing the dashes of the result gives the input's digits, letters
      and dots, lower-cased, in their original order. */
  lemma {:induction false} FileNameCheckKeepsAllowed(title: seq<char>)
    ensures RemoveDashes(FileNameCheck(title)) == ToLowerCase(KeepAllowed(title))
  {
    LowerKeepsAllowed(RegexReplace(title));
    ReplaceKeepsAllowed(title);
  }

  /** The result is never longer than the title, and empty exactly when the
      title is. */
  lemma FileNameCheckLength(title: seq<char>)
    ensures |FileNameCheck(title)| <= |title|
    ensures FileNameCheck(title) == [] <==> title == []
  {
  }

  /** The result starts with `-` exactly when the title starts with a
      character outside the class. */
  lemma FileNameCheckLeadingDash(title: seq<char>)
    requires title != []
    ensures FileNameCheck(title) != []
    ensures FileNameCheck(title)[0] == '-' <==> !IsAllowed(title[0])
  {
    ReplaceHead(title);
  }

  /** The replacement ends with a `-` exactly when the input ends with a
      disallowed character, and with that character otherwise. */
  lemma {:induction false} ReplaceLast(s: seq<char>)
    requires s != []
    ensures RegexReplace(s) != []
    ensures RegexReplace(s)[|RegexReplace(s)| - 1] == if IsAllowed(s[|s| - 1]) then s[|s| - 1] else '-'
    decreases |s|
  {
    if IsAllowed(s[0]) {
      if |s| > 1 {
        ReplaceLast(s[1..]);
      }
    } else {
      var rest := s[RunLength(s)..];
      if rest != [] {
        ReplaceLast(rest);
      }
    }
  }

  /** The result ends with `-` exactly when the title ends with a character
      outside the class. */
  lemma FileNameCheckTrailingDash(title: seq<char>)
    requires title != []
    ensures FileNameCheck(title) != []
    ensures FileNameCheck(title)[|FileNameCheck(title)| - 1] == '-' <==> !IsAllowed(title[|title| - 1])
  {
    ReplaceLast(title);
  }

  /** The strings `fileNameCheck` leaves unchanged are exactly the sanitised
      ones. */
  lemma FileNameCheckFixedPoints(s: seq<char>)
    ensures FileNameCheck(s) == s <==> IsSanitized(s)
  {
    if IsSanitized(s) {
      assert forall i :: 0 <= i < |s| ==> IsAllowed(s[i]) || s[i] == '-';
      ReplaceFixesSanitized(s);
      assert ToLowerCase(s) == s;
    } else if FileNameCheck(s) == s {
      FileNameCheckSanitized(s);
    }
  }

  /** A name of digits, lower-case letters and dots is returned unchanged. */
  lemma FileNameCheckKeepsCleanName(s: seq<char>)
    requires forall i :: 0 <= i < |s| ==> IsAsciiDigit(s[i]) || IsAsciiLower(s[i]) || s[i] == '.'
    ensures FileNameCheck(s) == s
  {
    FileNameCheckFixedPoints(s);
  }

  lemma FileNameCheckIdempotent(title: seq<char>)
    ensures FileNameCheck(FileNameCheck(title)) == FileNameCheck(title)
  {
    FileNameCheckSanitized(title);
    FileNameCheckFixedPoints(FileNameCheck(title));
  }
}

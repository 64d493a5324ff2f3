/**
 * `sanitize_table_name`: turns a parquet file name into an SQL table name by dropping
 * the `.parquet` extension, mapping hyphens to underscores, keeping only ASCII letters,
 * digits and underscores, guarding against a leading digit and prepending a prefix.
 */
module Duckify {
  import opened Text

  const Extension: string := ".parquet"

  /**
   * Python's `str.replace(".parquet", "")`: scans left to right and drops every
   * non-overlapping occurrence; what remains is not scanned again.
   */
  function RemoveExtension(s: string): (r: string)
    ensures |r| <= |s|
    ensures forall i :: 0 <= i < |r| ==> r[i] in s
    decreases |s|
  {
    if s == [] then []
    else if |s| >= |Extension| && s[..|Extension|] == Extension then RemoveExtension(s[|Extension|..])
    else [s[0]] + RemoveExtension(s[1..])
  }

  /** `name.replace("-", "_")`. */
  function HyphensToUnderscores(s: string): (r: string)
    ensures |r| == |s|
    ensures forall i :: 0 <= i < |r| ==> r[i] != '-'
    ensures forall i :: 0 <= i < |s| && s[i] == '-' ==> r[i] == '_'
    ensures forall i :: 0 <= i < |s| && s[i] != '-' ==> r[i] == s[i]
  {
    seq(|s|, i requires 0 <= i < |s| => if s[i] == '-' then '_' else s[i])
  }

  /** The characters the pattern `[a-zA-Z0-9_]` matches. */
  predicate Allowed(c: char) {
    IsAsciiLetter(c) || IsAsciiDigit(c) || c == '_'
  }

  predicate AllAllowed(s: string) {
    forall i :: 0 <= i < |s| ==> Allowed(s[i])
  }

  /** `re.sub(r"[^a-zA-Z0-9_]", "", name)`: keeps the allowed characters, in order. */
  function KeepAllowed(s: string): (r: string)
    ensures |r| <= |s|
    ensures AllAllowed(r)
    decreases |s|
  {
    if s == [] then []
    else if Allowed(s[0]) then [s[0]] + KeepAllowed(s[1..])
    else KeepAllowed(s[1..])
  }

  /** A character is kept exactly when the pattern matches it. */
  lemma KeepAllowedChar(c: char)
    ensures KeepAllowed([c]) == if Allowed(c) then [c] else []
  {
    assert [c][1..] == [];
  }

  /** Filtering distributes over concatenation, so the allowed characters are kept in order. */
  lemma {:induction false} KeepAllowedConcat(a: string, b: string)
    ensures KeepAllowed(a + b) == KeepAllowed(a) + KeepAllowed(b)
    decreases |a|
  {
    if a == [] {
      assert a + b == b;
    } else {
      assert (a + b)[0] == a[0];
      assert (a + b)[1..] == a[1..] + b;
      KeepAllowedConcat(a[1..], b);
      if Allowed(a[0]) {
        assert [a[0]] + (KeepAllowed(a[1..]) + KeepAllowed(b)) == [a[0]] + KeepAllowed(a[1..]) + KeepAllowed(b);
      }
    }
  }

  /** A table name may not start with a digit: such a name gets a leading underscore. */
  function GuardLeadingDigit(s: string): (r: string)
    ensures r != [] ==> !IsAsciiDigit(r[0])
    ensures s == [] || !IsAsciiDigit(s[0]) ==> r == s
  {
    if s != [] && IsAsciiDigit(s[0]) then "_" + s else s
  }

  /** `sanitize_table_name(filename, prefix)`. */
  function SanitizeTableName(filename: string, prefix: string): (r: string)
    ensures |prefix| <= |r| && r[..|prefix|] == prefix
  {
    var name := GuardLeadingDigit(KeepAllowed(HyphensToUnderscores(RemoveExtension(filename))));
    if prefix != [] then prefix + name else name
  }

  /** Without a prefix, the name holds only ASCII letters, digits and underscores, and never starts with a digit. */
  lemma UnprefixedIsTableName(filename: string)
    ensures AllAllowed(SanitizeTableName(filename, ""))
    ensures SanitizeTableName(filename, "") != [] ==> !IsAsciiDigit(SanitizeTableName(filename, "")[0])
  {
    var kept := KeepAllowed(HyphensToUnderscores(RemoveExtension(filename)));
    var r := SanitizeTableName(filename, "");
    if kept != [] && IsAsciiDigit(kept[0]) {
      assert r == "_" + kept;
      forall i | 0 <= i < |r| ensures Allowed(r[i]) {
        if i > 0 { assert r[i] == kept[i - 1]; }
      }
    }
  }

  /** A prefix is prepended verbatim, whatever characters it holds. */
  lemma PrefixPrependedVerbatim(filename: string, prefix: string)
    ensures SanitizeTableName(filename, prefix) == prefix + SanitizeTableName(filename, "")
  {
    if prefix == [] {
      assert prefix + SanitizeTableName(filename, "") == SanitizeTableName(filename, "");
    }
  }

  lemma {:induction false} RemoveExtensionIdentity(s: string)
    requires forall i :: 0 <= i < |s| ==> s[i] != '.'
    ensures RemoveExtension(s) == s
    decreases |s|
  {
    if s != [] {
      assert s[0] != Extension[0];
      RemoveExtensionIdentity(s[1..]);
      assert [s[0]] + s[1..] == s;
    }
  }

  lemma {:induction false} KeepAllowedIdentity(s: string)
    requires AllAllowed(s)
    ensures KeepAllowed(s) == s
    decreases |s|
  {
    if s != [] {
      KeepAllowedIdentity(s[1..]);
      assert [s[0]] + s[1..] == s;
    }
  }

  /** Sanitising an already sanitised, unprefixed name changes nothing. */
  lemma SanitizeIdempotent(filename: string)
    ensures SanitizeTableName(SanitizeTableName(filename, ""), "") == SanitizeTableName(filename, "")
  {
    var once := SanitizeTableName(filename, "");
    UnprefixedIsTableName(filename);
    RemoveExtensionIdentity(once);
    assert HyphensToUnderscores(once) == once;
    KeepAllowedIdentity(once);
  }

  lemma {:induction false} KeepAllowedEmpty(s: string)
    requires forall i :: 0 <= i < |s| ==> !Allowed(s[i])
    ensures KeepAllowed(s) == []
    decreases |s|
  {
    if s != [] {
      KeepAllowedEmpty(s[1..]);
    }
  }

  /** A character that can survive sanitising: allowed, or a hyphen that becomes an underscore. */
  predicate Survives(c: char) {
    Allowed(c) || c == '-'
  }

  /** A file name with no letter, digit, underscore or hyphen (the empty name included) sanitises to "". */
  lemma NothingSurvives(filename: string)
    requires forall i :: 0 <= i < |filename| ==> !Survives(filename[i])
    ensures SanitizeTableName(filename, "") == []
  {
    var removed := RemoveExtension(filename);
    var mapped := HyphensToUnderscores(removed);
    forall i | 0 <= i < |mapped| ensures !Allowed(mapped[i]) {
      assert removed[i] in filename;
    }
    KeepAllowedEmpty(mapped);
  }

  /** Removing a trailing `.parquet` leaves the same table name as never having it. */
  lemma {:induction false} ExtensionDropped(x: string)
    ensures RemoveExtension(x + Extension) == RemoveExtension(x)
    decreases |x|
  {
    var s := x + Extension;
    if x == [] {
      assert s == Extension && s[|Extension|..] == [];
    } else if |x| >= |Extension| && x[..|Extension|] == Extension {
      assert s[..|Extension|] == Extension;
      assert s[|Extension|..] == x[|Extension|..] + Extension;
      ExtensionDropped(x[|Extension|..]);
    } else {
      // An occurrence cannot straddle the end of `x`: `.` occurs only first in `.parquet`.
      if |x| < |Extension| {
        assert s[|x|] == Extension[0] != Extension[|x|];
      } else {
        assert s[..|Extension|] == x[..|Extension|];
      }
      assert s[1..] == x[1..] + Extension;
      ExtensionDropped(x[1..]);
    }
  }

  /** An occurrence of `.parquet` inside a name is removed too, not only a trailing one. */
  lemma {:induction false} MiddleOccurrenceRemoved(x: string, y: string)
    requires forall i :: 0 <= i < |x| ==> x[i] != '.'
    ensures RemoveExtension(x + Extension + y) == x + RemoveExtension(y)
    decreases |x|
  {
    var s := x + (Extension + y);
    assert s == x + Extension + y;
    if x == [] {
      assert s == Extension + y;
      assert s[..|Extension|] == Extension;
      assert s[|Extension|..] == y;
    } else {
      var tail := x[1..] + (Extension + y);
      assert s == [x[0]] + tail;
      assert s[0] != Extension[0];
      assert RemoveExtension(s) == [x[0]] + RemoveExtension(tail);
      assert tail == x[1..] + Extension + y;
      MiddleOccurrenceRemoved(x[1..], y);
      assert [x[0]] + x[1..] == x;
    }
  }

  lemma ParquetSuffixIgnored(x: string, prefix: string)
    ensures SanitizeTableName(x + Extension, prefix) == SanitizeTableName(x, prefix)
  {
    ExtensionDropped(x);
  }
}

/** The pure helpers of the campground routes: escaping a search term so that
    it can be used as a literal regular expression, the upload file filter,
    the stored upload name, and the "no match" rule of the index page. */
module Campgrounds {
  import opened Wrappers

  // ---------------------------------------------------------------------------
  // escapeRegex
  // ---------------------------------------------------------------------------

  /** ECMAScript's `\s`: the WhiteSpace and LineTerminator code points. */
  predicate IsRegexSpace(c: char) {
    c == '\t' || c == '\n' || c == '\U{000B}' || c == '\U{000C}' || c == '\r' ||
    c == ' ' || c == '\U{00A0}' || c == '\U{1680}' ||
    ('\U{2000}' <= c <= '\U{200A}') ||
    c == '\U{2028}' || c == '\U{2029}' || c == '\U{202F}' || c == '\U{205F}' ||
    c == '\U{3000}' || c == '\U{FEFF}'
  }

  /** The character class `[-[\]{}()*+?.,\\^$|#\s]`. */
  predicate IsSpecial(c: char) {
    c == '-' || c == '[' || c == ']' || c == '{' || c == '}' || c == '(' || c == ')' ||
    c == '*' || c == '+' || c == '?' || c == '.' || c == ',' || c == '\\' || c == '^' ||
    c == '$' || c == '|' || c == '#' || IsRegexSpace(c)
  }

  /** Number of characters of `s` that the class matches. */
  function CountSpecial(s: string): (n: nat)
    ensures n <= |s|
  {
    if s == [] then 0 else (if IsSpecial(s[0]) then 1 else 0) + CountSpecial(s[1..])
  }

  /** `text.replace(/[...]/g, "\\$&")`: every match is replaced by a backslash
      followed by the matched character itself. */
  function EscapeRegex(s: string): (r: string)
    ensures |r| == |s| + CountSpecial(s)
  {
    if s == [] then []
    else (if IsSpecial(s[0]) then ['\\', s[0]] else [s[0]]) + EscapeRegex(s[1..])
  }

  /** How a regular expression reads a pattern as literal text: a backslash
      followed by a character stands for that character (an identity escape),
      any other character for itself. */
  function Unescape(t: string): (s: string)
    decreases |t|
  {
    if t == [] then []
    else if t[0] == '\\' && |t| >= 2 then [t[1]] + Unescape(t[2..])
    else [t[0]] + Unescape(t[1..])
  }

  /** A pattern in which every character of the special class occurs only as
      the second half of an escaped pair: it has no regular-expression
      syntax left and denotes literal text. */
  predicate IsLiteralPattern(t: string)
    decreases |t|
  {
    t == [] ||
    (|t| >= 2 && t[0] == '\\' && IsSpecial(t[1]) && IsLiteralPattern(t[2..])) ||
    (!IsSpecial(t[0]) && IsLiteralPattern(t[1..]))
  }

  /** `a` occurs in `b` in order, possibly with other characters between. */
  predicate IsSubsequence(a: string, b: string)
    decreases |b|
  {
    if a == [] then true
    else if b == [] then false
    else (a[0] == b[0] && IsSubsequence(a[1..], b[1..])) || IsSubsequence(a, b[1..])
  }

  /** Escaping distributes over concatenation, and one character becomes
      a backslash and itself when special and is copied otherwise: so each
      special character gets exactly one backslash in front of it, and every
      other character is copied unchanged and in order. */
  lemma {:induction false} EscapeIsPerCharacter(a: string, c: char, b: string)
    ensures EscapeRegex(a + [c] + b)
         == EscapeRegex(a) + (if IsSpecial(c) then ['\\', c] else [c]) + EscapeRegex(b)
  {
    if a == [] {
      assert a + [c] + b == [c] + b;
      assert ([c] + b)[1..] == b;
    } else {
      assert (a + [c] + b)[1..] == a[1..] + [c] + b;
      EscapeIsPerCharacter(a[1..], c, b);
    }
  }

  /** Reading the escaped text back as a pattern gives the original input. */
  lemma {:induction false} UnescapeEscape(s: string)
    ensures Unescape(EscapeRegex(s)) == s
  {
    if s != [] {
      UnescapeEscape(s[1..]);
      var rest := EscapeRegex(s[1..]);
      if IsSpecial(s[0]) {
        assert (['\\', s[0]] + rest)[2..] == rest;
      } else {
        assert s[0] != '\\';
        assert ([s[0]] + rest)[1..] == rest;
      }
    }
  }

  /** The escaped text has no regular-expression syntax left in it. */
  lemma {:induction false} EscapeIsLiteral(s: string)
    ensures IsLiteralPattern(EscapeRegex(s))
  {
    if s != [] {
      EscapeIsLiteral(s[1..]);
      var rest := EscapeRegex(s[1..]);
      if IsSpecial(s[0]) {
        assert (['\\', s[0]] + rest)[2..] == rest;
      } else {
        assert ([s[0]] + rest)[1..] == rest;
      }
    }
  }

  /** Every literal pattern is the escaping of the text it denotes. */
  lemma {:induction false} EscapeUnescape(t: string)
    requires IsLiteralPattern(t)
    ensures EscapeRegex(Unescape(t)) == t
    decreases |t|
  {
    if t != [] {
      if |t| >= 2 && t[0] == '\\' && IsSpecial(t[1]) && IsLiteralPattern(t[2..]) {
        EscapeUnescape(t[2..]);
        assert ([t[1]] + Unescape(t[2..]))[1..] == Unescape(t[2..]);
        assert t == ['\\', t[1]] + t[2..];
      } else {
        assert !IsSpecial(t[0]) && IsLiteralPattern(t[1..]);
        EscapeUnescape(t[1..]);
        assert ([t[0]] + Unescape(t[1..]))[1..] == Unescape(t[1..]);
        assert t == [t[0]] + t[1..];
      }
    }
  }

  /** Escaping is a bijection between all strings and the literal patterns:
      `t` is the escaping of `s` exactly when `t` is literal and denotes `s`. */
  lemma EscapeCharacterization(s: string, t: string)
    ensures EscapeRegex(s) == t <==> IsLiteralPattern(t) && Unescape(t) == s
  {
    if EscapeRegex(s) == t {
      EscapeIsLiteral(s);
      UnescapeEscape(s);
    }
    if IsLiteralPattern(t) && Unescape(t) == s {
      EscapeUnescape(t);
    }
  }

  /** Escaping changes a string exactly when it holds a special character. */
  lemma {:induction false} EscapeIdentity(s: string)
    ensures EscapeRegex(s) == s <==> forall i :: 0 <= i < |s| ==> !IsSpecial(s[i])
  {
    if s != [] {
      EscapeIdentity(s[1..]);
      if forall i :: 0 <= i < |s| ==> !IsSpecial(s[i]) {
        assert forall i :: 0 <= i < |s| - 1 ==> !IsSpecial(s[1..][i]) by {
          forall i | 0 <= i < |s| - 1 ensures !IsSpecial(s[1..][i]) {
            assert s[1..][i] == s[i + 1];
          }
        }
        assert s == [s[0]] + s[1..];
      }
      if EscapeRegex(s) == s {
        assert !IsSpecial(s[0]);
        assert EscapeRegex(s[1..]) == s[1..] by {
          assert EscapeRegex(s)[1..] == EscapeRegex(s[1..]);
        }
        forall i | 0 <= i < |s| ensures !IsSpecial(s[i]) {
          if i > 0 { assert s[i] == s[1..][i - 1]; }
        }
      }
    }
  }

  /** Escaping never removes a character: the input is a subsequence of
      its escaping. */
  lemma {:induction false} EscapeKeepsInput(s: string)
    ensures IsSubsequence(s, EscapeRegex(s))
  {
    if s != [] {
      EscapeKeepsInput(s[1..]);
      var rest := EscapeRegex(s[1..]);
      if IsSpecial(s[0]) {
        var t := ['\\', s[0]] + rest;
        assert t[1..] == [s[0]] + rest;
        assert ([s[0]] + rest)[1..] == rest;
        assert IsSubsequence(s, t[1..]);
      } else {
        assert ([s[0]] + rest)[1..] == rest;
      }
    }
  }

  // ---------------------------------------------------------------------------
  // imageFilter
  // ---------------------------------------------------------------------------

  const ImageFilterError: string := "Only image files are allowed!"

  /** The alternatives of the group `(jpg|jpeg|png|gif)`. */
  predicate IsImageExtension(ext: string) {
    ext == "jpg" || ext == "jpeg" || ext == "png" || ext == "gif"
  }

  /** The `i` flag's case folding as it applies to this pattern: the pattern's
      letters are ASCII, and a non-ASCII character never folds onto one. */
  function LowerAscii(c: char): (l: char)
    ensures 'A' <= c <= 'Z' ==> l as int == c as int + 32
    ensures !('A' <= c <= 'Z') ==> l == c
  {
    if 'A' <= c <= 'Z' then (c as int + 32) as char else c
  }

  function Lowered(s: string): (l: string)
    ensures |l| == |s| && forall i :: 0 <= i < |s| ==> l[i] == LowerAscii(s[i])
  {
    seq(|s|, i requires 0 <= i < |s| => LowerAscii(s[i]))
  }

  /** `name` ends with `suffix`, letters compared without regard to case. */
  predicate EndsWithIgnoringCase(name: string, suffix: string) {
    |suffix| <= |name| && Lowered(name[|name| - |suffix|..]) == suffix
  }

  /** `name` ends with a dot and then `ext`, ignoring case. */
  predicate HasExtension(name: string, ext: string) {
    EndsWithIgnoringCase(name, "." + ext)
  }

  /** The filter's test, read as "the name ends with one of the extensions". */
  predicate HasImageExtension(name: string) {
    HasExtension(name, "jpg") || HasExtension(name, "jpeg") ||
    HasExtension(name, "png") || HasExtension(name, "gif")
  }

  /** The regular expression `/\.(jpg|jpeg|png|gif)$/i` matching at position
      `i`: a dot there, then one alternative, then (by `$`) the end. */
  predicate RegexMatchesAt(name: string, i: int) {
    0 <= i < |name| && name[i] == '.' && IsImageExtension(Lowered(name[i + 1..]))
  }

  /** `name.match(...)` is non-null: the pattern matches at some position. */
  predicate RegexMatches(name: string) {
    exists i | 0 <= i < |name| :: RegexMatchesAt(name, i)
  }

  datatype Verdict = Accepted | Rejected(error: string)

  /** `imageFilter`: the callback gets `(null, true)` or the error. */
  function ImageFilter(originalname: string): (v: Verdict)
    ensures v.Accepted? <==> HasImageExtension(originalname)
    ensures v.Rejected? ==> v.error == ImageFilterError
  {
    if !HasImageExtension(originalname) then Rejected(ImageFilterError) else Accepted
  }

  /** One alternative: ending in `.ext` is the pattern matching at the
      position of that dot. */
  lemma SuffixMatch(name: string, ext: string)
    ensures var i := |name| - |ext| - 1;
      HasExtension(name, ext) <==>
      0 <= i && name[i] == '.' && Lowered(name[i + 1..]) == ext
  {
    var i := |name| - |ext| - 1;
    if 0 <= i {
      var whole, tail := Lowered(name[i..]), Lowered(name[i + 1..]);
      assert whole[0] == LowerAscii(name[i]);
      assert whole[1..] == tail;
      assert LowerAscii(name[i]) == '.' <==> name[i] == '.';
      var dotted := "." + ext;
      assert |dotted| == |ext| + 1 && dotted[0] == '.' && dotted[1..] == ext;
      assert name[|name| - |dotted|..] == name[i..];
      assert whole == dotted <==> whole[0] == '.' && tail == ext by {
        if whole[0] == '.' && tail == ext {
          assert whole == [whole[0]] + whole[1..];
        }
      }
    }
  }

  lemma SuffixPosition(name: string, ext: string)
    requires IsImageExtension(ext) && HasExtension(name, ext)
    ensures RegexMatchesAt(name, |name| - |ext| - 1)
  {
    SuffixMatch(name, ext);
  }

  lemma MatchIsSuffix(name: string, i: int)
    requires RegexMatchesAt(name, i)
    ensures HasImageExtension(name)
  {
    var ext := Lowered(name[i + 1..]);
    assert i == |name| - |ext| - 1;
    SuffixMatch(name, ext);
    assert HasExtension(name, ext);
  }

  /** The suffix reading of the filter agrees with the regular expression it
      came from: the anchored pattern matches exactly the names that end,
      ignoring case, in one of the four extensions. */
  lemma FilterMatchesRegex(name: string)
    ensures RegexMatches(name) <==> HasImageExtension(name)
  {
    if HasExtension(name, "jpg") {
      SuffixPosition(name, "jpg");
    }
    if HasExtension(name, "jpeg") {
      SuffixPosition(name, "jpeg");
    }
    if HasExtension(name, "png") {
      SuffixPosition(name, "png");
    }
    if HasExtension(name, "gif") {
      SuffixPosition(name, "gif");
    }
    if RegexMatches(name) {
      var i :| 0 <= i < |name| && RegexMatchesAt(name, i);
      MatchIsSuffix(name, i);
    }
  }

  /** The test is anchored at the end of the name: an image extension
      inside the name does not count, nor does a bare extension. */
  lemma ImageFilterIsAnchored()
    ensures ImageFilter("a.png.exe") == Rejected(ImageFilterError)
    ensures ImageFilter("jpg") == Rejected(ImageFilterError)
  {
    assert Lowered("a.png.exe"[5..])[1] == 'e';
    assert Lowered("a.png.exe"[4..])[1] == '.';
  }

  /** The test ignores the case of letters. */
  lemma ImageFilterIgnoresCase()
    ensures ImageFilter("A.JPEG") == Accepted
    ensures ImageFilter("photo.Gif") == Accepted
  {
    assert Lowered("A.JPEG"[1..]) == ".jpeg";
    assert Lowered("photo.Gif"[5..]) == ".gif";
  }

  // ---------------------------------------------------------------------------
  // storage filename
  // ---------------------------------------------------------------------------

  predicate IsDigit(c: char) { '0' <= c <= '9' }

  function DigitChar(d: int): (c: char)
    requires 0 <= d < 10
    ensures IsDigit(c) && c as int - '0' as int == d
  {
    ('0' as int + d) as char
  }

  /** JavaScript's conversion of a non-negative integer number to a string. */
  function Decimal(n: nat): (s: string)
    ensures |s| >= 1 && forall i :: 0 <= i < |s| ==> IsDigit(s[i])
    ensures s[0] == '0' ==> n == 0
    decreases n
  {
    if n < 10 then [DigitChar(n)] else Decimal(n / 10) + [DigitChar(n % 10)]
  }

  /** The number a string of decimal digits denotes. */
  function DecimalValue(s: string): nat
    requires forall i :: 0 <= i < |s| ==> IsDigit(s[i])
  {
    if s == [] then 0
    else
      assert IsDigit(s[|s| - 1]);
      10 * DecimalValue(s[..|s| - 1]) + (s[|s| - 1] as int - '0' as int)
  }

  lemma {:induction false} DecimalRoundTrip(n: nat)
    ensures DecimalValue(Decimal(n)) == n
    decreases n
  {
    if n >= 10 {
      DecimalRoundTrip(n / 10);
      var s := Decimal(n);
      assert s[..|s| - 1] == Decimal(n / 10);
    }
  }

  /** `Date.now() + file.originalname`: the time in milliseconds, written in
      decimal, followed by the uploaded file's own name. */
  function StoredFilename(now: nat, originalname: string): (stored: string)
    ensures |stored| > |originalname|
    ensures stored[|stored| - |originalname|..] == originalname
    ensures forall i :: 0 <= i < |stored| - |originalname| ==> IsDigit(stored[i])
  {
    Decimal(now) + originalname
  }

  /** The timestamp can be read back from the stored name's digit prefix. */
  lemma StoredFilenameTimestamp(now: nat, originalname: string)
    ensures var stored := StoredFilename(now, originalname);
            DecimalValue(stored[..|stored| - |originalname|]) == now
  {
    var stored := StoredFilename(now, originalname);
    assert stored[..|stored| - |originalname|] == Decimal(now);
    DecimalRoundTrip(now);
  }

  /** Two uploads of the same file at different milliseconds are stored
      under different names. */
  lemma StoredFilenamesDistinct(t1: nat, t2: nat, originalname: string)
    requires t1 != t2
    ensures StoredFilename(t1, originalname) != StoredFilename(t2, originalname)
  {
    StoredFilenameTimestamp(t1, originalname);
    StoredFilenameTimestamp(t2, originalname);
  }

  // ---------------------------------------------------------------------------
  // INDEX route: search and "no match"
  // ---------------------------------------------------------------------------

  const NoMatchMessage: string :=
    "No campgrounds match that query, please try again."

  /** What the index page is rendered with. */
  datatype IndexView<C> = IndexView(campgrounds: seq<C>, noMatch: Option<string>)

  /** `req.query.search` is truthy: present and not the empty string. */
  predicate Searched(search: Option<string>) {
    search.Some? && search.value != ""
  }

  /** The name filter the route queries with: the escaped search term (used
      as a case-insensitive regular expression), or no filter at all. */
  function NameFilter(search: Option<string>): (pattern: Option<string>)
    ensures pattern.Some? <==> Searched(search)
    ensures pattern.Some? ==> IsLiteralPattern(pattern.value) && Unescape(pattern.value) == search.value
  {
    if Searched(search) then
      EscapeCharacterization(search.value, EscapeRegex(search.value));
      Some(EscapeRegex(search.value))
    else None
  }

  /** The index route once the query has answered: `found` is `None` when
      the database reported an error, in which case nothing is rendered. */
  function IndexPage<C>(search: Option<string>, found: Option<seq<C>>): (page: Option<IndexView<C>>)
    ensures page.Some? <==> found.Some?
    ensures page.Some? ==> page.value.campgrounds == found.value
    ensures page.Some? ==> (page.value.noMatch.Some? <==> Searched(search) && found.value == [])
    ensures page.Some? && page.value.noMatch.Some? ==> page.value.noMatch.value == NoMatchMessage
  {
    match found
    case None => None
    case Some(all) =>
      var noMatch := if Searched(search) && |all| < 1 then Some(NoMatchMessage) else None;
      Some(IndexView(all, noMatch))
  }
}

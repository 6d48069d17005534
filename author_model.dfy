/**
  The Author record (src/models/authorModel.js): required and trimmed name
  and password fields, the `title` enumeration, and the email field, which
  is trimmed, lower-cased, checked against a fixed regular expression and
  unique across authors.
*/
module AuthorModel {
  import opened Wrappers
  import opened JsValue
  import opened SchemaTypes

  type Id = string

  datatype Title = Mr | Mrs | Miss

  datatype Author = Author(fname: string, lname: string, title: Title, email: string, password: string)

  /** The values an author registration supplies, still to be cast. */
  datatype AuthorDraft = AuthorDraft(fname: Value, lname: Value, title: Value, email: Value, password: Value)

  function TitleName(t: Title): string {
    match t
    case Mr => "Mr"
    case Mrs => "Mrs"
    case Miss => "Miss"
  }

  /** The `enum` validator: exactly the three spellings, with no trimming. */
  function ParseTitle(s: string): (r: Option<Title>)
    ensures r.Some? <==> s in {"Mr", "Mrs", "Miss"}
    ensures r.Some? ==> TitleName(r.value) == s
  {
    if s == "Mr" then Some(Mr)
    else if s == "Mrs" then Some(Mrs)
    else if s == "Miss" then Some(Miss)
    else None
  }

  lemma ParseTitleName(t: Title)
    ensures ParseTitle(TitleName(t)) == Some(t)
  {
  }

  // ---------------------------------------------------------------------------
  // Lower-casing and the email setters
  // ---------------------------------------------------------------------------

  predicate IsUpper(c: char) {
    'A' <= c <= 'Z'
  }

  function LowerChar(c: char): (r: char)
    ensures !IsUpper(r)
    ensures IsWhitespace(r) <==> IsWhitespace(c)
  {
    if IsUpper(c) then (c as int - 'A' as int + 'a' as int) as char else c
  }

  /** `toLowerCase` on the ASCII letters. */
  function ToLower(s: string): (r: string)
    ensures |r| == |s|
    ensures forall i | 0 <= i < |s| :: r[i] == LowerChar(s[i])
  {
    if s == [] then [] else [LowerChar(s[0])] + ToLower(s[1..])
  }

  /** The email path's setters, `trim` then `lowercase`. */
  function NormaliseEmail(s: string): (r: string)
    ensures IsTrimmed(r)
    ensures forall i | 0 <= i < |r| :: !IsUpper(r[i])
    ensures r == [] <==> AllWhitespace(s)
    ensures |r| == |Trim(s)| && forall i | 0 <= i < |r| :: r[i] == LowerChar(Trim(s)[i])
  {
    TrimIsTrimmed(s);
    TrimEmptyIff(s);
    ToLower(Trim(s))
  }

  /** Setting an email that is already stored changes nothing. */
  lemma NormaliseEmailIdempotent(s: string)
    ensures NormaliseEmail(NormaliseEmail(s)) == NormaliseEmail(s)
  {
    var r := NormaliseEmail(s);
    TrimOfTrimmed(r);
    LowerOfLower(r);
  }

  /** Lower-casing a string without upper-case letters changes nothing. */
  lemma LowerOfLower(r: string)
    requires forall i | 0 <= i < |r| :: !IsUpper(r[i])
    ensures ToLower(r) == r
  {
    forall i | 0 <= i < |r| ensures ToLower(r)[i] == r[i] {
    }
  }

  // ---------------------------------------------------------------------------
  // The email regular expression  /^\w+([\.-]?\w+)*@\w+([\.-]?\w+)*(\.\w{2,3})+$/
  // ---------------------------------------------------------------------------

  /** `\w` */
  predicate IsWordChar(c: char) {
    'a' <= c <= 'z' || 'A' <= c <= 'Z' || '0' <= c <= '9' || c == '_'
  }

  /** `[\.-]` */
  predicate IsSeparator(c: char) {
    c == '.' || c == '-'
  }

  /** `\w+` */
  predicate IsWord(s: string) {
    |s| >= 1 && forall i | 0 <= i < |s| :: IsWordChar(s[i])
  }

  /** `\w+([\.-]?\w+)*`, read off the expression: a word, then optional separators each followed by a word. */
  ghost predicate MatchesDotted(s: string)
    decreases |s|
  {
    || IsWord(s)
    || exists k | 0 < k < |s| ::
         IsWord(s[..k]) && (MatchesDotted(s[k..]) || (IsSeparator(s[k]) && MatchesDotted(s[k + 1..])))
  }

  /** `(\.\w{2,3})+`: one or more groups of a dot and two or three word characters. */
  ghost predicate MatchesGroups(s: string)
    decreases |s|
  {
    && |s| >= 3 && s[0] == '.'
    && (|| (IsWord(s[1..3]) && (|s| == 3 || MatchesGroups(s[3..])))
        || (|s| >= 4 && IsWord(s[1..4]) && (|s| == 4 || MatchesGroups(s[4..]))))
  }

  /** The whole expression, anchored at both ends. */
  ghost predicate MatchesEmailRegex(e: string) {
    exists i, j | 0 <= i < j <= |e| ::
      e[i] == '@' && MatchesDotted(e[..i]) && MatchesDotted(e[i + 1..j]) && MatchesGroups(e[j..])
  }

  /**
    The language of `\w+([\.-]?\w+)*` stated directly: word characters and
    separators, a word character at both ends, never two separators in a row.
  */
  predicate IsDottedRun(s: string) {
    && |s| >= 1
    && IsWordChar(s[0])
    && IsWordChar(s[|s| - 1])
    && (forall i | 0 <= i < |s| :: IsWordChar(s[i]) || IsSeparator(s[i]))
    && (forall i | 0 <= i < |s| - 1 :: IsSeparator(s[i]) ==> !IsSeparator(s[i + 1]))
  }

  /** The first position of `c` in `s`. */
  function IndexOf(s: string, c: char): (r: Option<nat>)
    ensures r.Some? ==> r.value < |s| && s[r.value] == c && c !in s[..r.value]
    ensures r.None? ==> c !in s
  {
    if s == [] then None
    else if s[0] == c then Some(0)
    else
      match IndexOf(s[1..], c)
      case None => None
      case Some(k) => assert s[..k + 1] == [s[0]] + s[1..][..k]; Some(k + 1)
  }

  /** The part after `@`: a dotted run, a dot, and a final group of two or three word characters. */
  predicate IsEmailDomain(d: string) {
    var n := |d|;
    || (n >= 3 && d[n - 3] == '.' && IsWord(d[n - 2..]) && IsDottedRun(d[..n - 3]))
    || (n >= 4 && d[n - 4] == '.' && IsWord(d[n - 3..]) && IsDottedRun(d[..n - 4]))
  }

  /** The email validator: split at the first `@`, then check both sides. */
  predicate IsValidEmail(e: string) {
    match IndexOf(e, '@')
    case None => false
    case Some(i) => IsDottedRun(e[..i]) && IsEmailDomain(e[i + 1..])
  }

  // Concatenation facts about dotted runs.

  lemma WordIsRun(w: string)
    requires IsWord(w)
    ensures IsDottedRun(w)
  {
  }

  lemma WordThenRun(w: string, s: string)
    requires IsWord(w) && IsDottedRun(s)
    ensures IsDottedRun(w + s)
  {
    var r := w + s;
    forall i | 0 <= i < |r| - 1 ensures IsSeparator(r[i]) ==> !IsSeparator(r[i + 1]) {
      if i >= |w| {
        assert r[i] == s[i - |w|] && r[i + 1] == s[i + 1 - |w|];
      }
    }
  }

  lemma RunThenSepWord(s: string, c: char, w: string)
    requires IsDottedRun(s) && IsSeparator(c) && IsWord(w)
    ensures IsDottedRun(s + [c] + w)
  {
    var r := s + [c] + w;
    forall i | 0 <= i < |r| ensures IsWordChar(r[i]) || IsSeparator(r[i]) {
      if i < |s| { assert r[i] == s[i]; }
      else if i > |s| { assert r[i] == w[i - |s| - 1]; }
    }
    forall i | 0 <= i < |r| - 1 ensures IsSeparator(r[i]) ==> !IsSeparator(r[i + 1]) {
      if i < |s| - 1 {
        assert r[i] == s[i] && r[i + 1] == s[i + 1];
      } else if i == |s| - 1 {
        assert r[i] == s[i];
      } else if i > |s| {
        assert r[i + 1] == w[i - |s|];
      } else {
        assert r[i + 1] == w[0];
      }
    }
  }

  lemma WordSepRun(w: string, c: char, s: string)
    requires IsWord(w) && IsSeparator(c) && IsDottedRun(s)
    ensures IsDottedRun(w + [c] + s)
  {
    var r := w + [c] + s;
    forall i | 0 <= i < |r| ensures IsWordChar(r[i]) || IsSeparator(r[i]) {
      if i < |w| { assert r[i] == w[i]; }
      else if i > |w| { assert r[i] == s[i - |w| - 1]; }
    }
    forall i | 0 <= i < |r| - 1 ensures IsSeparator(r[i]) ==> !IsSeparator(r[i + 1]) {
      if i < |w| - 1 {
        assert r[i] == w[i];
      } else if i == |w| - 1 {
        assert r[i] == w[i];
      } else if i == |w| {
        assert r[i + 1] == s[0];
      } else {
        assert r[i] == s[i - |w| - 1] && r[i + 1] == s[i - |w|];
      }
    }
    assert r[|r| - 1] == s[|s| - 1];
  }

  /** A string is its prefix and suffix at any position, or the two around one character. */
  lemma SplitAt(s: string, k: nat)
    requires k < |s|
    ensures s[..k] + s[k..] == s
    ensures s[..k] + [s[k]] + s[k + 1..] == s
  {
  }

  /** Every string the dotted part of the expression matches is a dotted run. */
  lemma {:induction false} MatchedDottedIsRun(s: string)
    requires MatchesDotted(s)
    ensures IsDottedRun(s)
    decreases |s|
  {
    if IsWord(s) {
      WordIsRun(s);
    } else {
      var k :| 0 < k < |s| && IsWord(s[..k]) &&
        (MatchesDotted(s[k..]) || (IsSeparator(s[k]) && MatchesDotted(s[k + 1..])));
      SplitAt(s, k);
      if MatchesDotted(s[k..]) {
        MatchedDottedIsRun(s[k..]);
        WordThenRun(s[..k], s[k..]);
      } else {
        MatchedDottedIsRun(s[k + 1..]);
        WordSepRun(s[..k], s[k], s[k + 1..]);
      }
    }
  }

  /** Every dotted run is matched by the dotted part of the expression. */
  lemma {:induction false} RunIsMatchedDotted(s: string)
    requires IsDottedRun(s)
    ensures MatchesDotted(s)
    decreases |s|
  {
    if |s| == 1 {
      assert IsWord(s);
    } else if IsWordChar(s[1]) {
      var t := s[1..];
      assert forall i | 0 <= i < |t| :: t[i] == s[i + 1];
      RunIsMatchedDotted(t);
      assert IsWord(s[..1]) && MatchesDotted(s[1..]);
    } else {
      assert IsSeparator(s[1]);
      var t := s[2..];
      assert forall i | 0 <= i < |t| :: t[i] == s[i + 2];
      RunIsMatchedDotted(t);
      assert IsWord(s[..1]) && IsSeparator(s[1]) && MatchesDotted(s[1 + 1..]);
    }
  }

  /** A dotted run followed by dot-groups is still a dotted run. */
  lemma {:induction false} RunThenGroups(x: string, y: string)
    requires IsDottedRun(x) && MatchesGroups(y)
    ensures IsDottedRun(x + y)
    decreases |y|
  {
    var m := FirstGroup(y);
    GroupSlices(x, y, m);
    RunThenSepWord(x, '.', y[1..m]);
    if m < |y| {
      RunThenGroups(x + y[..m], y[m..]);
    }
  }

  /** How a run and the groups after it recombine around the first group. */
  lemma GroupSlices(x: string, y: string, m: nat)
    requires 1 <= m <= |y| && y[0] == '.'
    ensures x + ['.'] + y[1..m] == x + y[..m]
    ensures x + y[..m] + y[m..] == x + y
    ensures m == |y| ==> x + y[..m] == x + y
  {
    assert y[..m] == [y[0]] + y[1..m];
  }

  /** The length of the first group: a dot and two or three word characters, then more groups or nothing. */
  lemma FirstGroup(y: string) returns (m: nat)
    requires MatchesGroups(y)
    ensures 3 <= m <= 4 && m <= |y| && y[0] == '.' && IsWord(y[1..m]) && (m == |y| || MatchesGroups(y[m..]))
  {
    m := if IsWord(y[1..3]) && (|y| == 3 || MatchesGroups(y[3..])) then 3 else 4;
  }

  /** A group in front of dot-groups (or of nothing) gives dot-groups. */
  lemma GroupsCons(g: string, z: string)
    requires 3 <= |g| <= 4 && g[0] == '.' && IsWord(g[1..])
    requires z == [] || MatchesGroups(z)
    ensures MatchesGroups(g + z)
  {
    var s := g + z;
    var m := |g|;
    assert s[1..m] == g[1..];
    assert s[m..] == z;
    assert s[0] == '.' && IsWord(s[1..m]) && (m == |s| || MatchesGroups(s[m..]));
  }

  /** Dot-groups end in a dot and a final group, after dot-groups or nothing. */
  lemma {:induction false} GroupsLast(y: string) returns (m: nat)
    requires MatchesGroups(y)
    ensures 3 <= m <= 4 && m <= |y|
    ensures y[|y| - m] == '.' && IsWord(y[|y| - m + 1..])
    ensures m == |y| || MatchesGroups(y[..|y| - m])
    decreases |y|
  {
    var m0 := FirstGroup(y);
    if m0 == |y| {
      m := m0;
      WholeTail(y);
    } else {
      var z := y[m0..];
      m := GroupsLast(z);
      GroupsLastStep(y, m0, z, m);
    }
  }

  /** The last group of the groups after the first one is the last group of the whole. */
  lemma GroupsLastStep(y: string, m0: nat, z: string, m: nat)
    requires 3 <= m0 <= 4 && m0 < |y| && y[0] == '.' && IsWord(y[1..m0])
    requires z == y[m0..]
    requires 3 <= m <= 4 && m <= |z|
    requires z[|z| - m] == '.' && IsWord(z[|z| - m + 1..])
    requires m == |z| || MatchesGroups(z[..|z| - m])
    ensures y[|y| - m] == '.' && IsWord(y[|y| - m + 1..])
    ensures MatchesGroups(y[..|y| - m])
  {
    LastGroupSlices(y, m0, m);
    GroupsCons(y[..m0], z[..|z| - m]);
  }

  /** Slicing up to the end is slicing to the end. */
  lemma WholeTail(y: string)
    requires |y| >= 1
    ensures y[1..|y|] == y[|y| - |y| + 1..]
  {
  }

  /** How the groups after the first one sit inside the whole string. */
  lemma LastGroupSlices(y: string, m0: nat, m: nat)
    requires m0 < |y| && 1 <= m <= |y| - m0
    ensures y[m0..][|y| - m0 - m] == y[|y| - m]
    ensures y[m0..][|y| - m0 - m + 1..] == y[|y| - m + 1..]
    ensures y[..m0] + y[m0..][..|y| - m0 - m] == y[..|y| - m]
    ensures m0 >= 1 ==> y[..m0][1..] == y[1..m0] && y[..m0][0] == y[0]
  {
  }

  /** The domain part of the expression and the domain check accept the same strings. */
  lemma DomainOfRegex(d: string, j: nat)
    requires j <= |d|
    requires MatchesDotted(d[..j]) && MatchesGroups(d[j..])
    ensures IsEmailDomain(d)
  {
    MatchedDottedIsRun(d[..j]);
    DomainOfRunGroups(d, j);
  }

  /** A dotted run followed by dot-groups passes the domain check. */
  lemma DomainOfRunGroups(d: string, j: nat)
    requires j <= |d| && IsDottedRun(d[..j]) && MatchesGroups(d[j..])
    ensures IsEmailDomain(d)
  {
    var y := d[j..];
    var m := GroupsLast(y);
    var k := |d| - m;
    SuffixSlices(d, j, k);
    if m < |y| {
      RunThenGroups(d[..j], y[..|y| - m]);
    }
    DomainOfParts(d, k);
  }

  /** A dotted run, a dot and two or three word characters pass the domain check. */
  lemma DomainOfParts(d: string, k: nat)
    requires 3 <= |d| - k <= 4
    requires IsDottedRun(d[..k]) && d[k] == '.' && IsWord(d[k + 1..])
    ensures IsEmailDomain(d)
  {
  }

  /** Slicing a suffix is slicing the whole string. */
  lemma SuffixSlices(d: string, j: nat, k: nat)
    requires j <= k < |d|
    ensures d[j..][k - j] == d[k]
    ensures d[j..][k - j + 1..] == d[k + 1..]
    ensures d[..j] + d[j..][..k - j] == d[..k]
    ensures k == j ==> d[..k] == d[..j]
  {
  }

  lemma RegexOfDomain(d: string) returns (j: nat)
    requires IsEmailDomain(d)
    ensures j <= |d| && MatchesDotted(d[..j]) && MatchesGroups(d[j..])
  {
    var n := |d|;
    var m := if n >= 3 && d[n - 3] == '.' && IsWord(d[n - 2..]) && IsDottedRun(d[..n - 3]) then 3 else 4;
    j := n - m;
    RunIsMatchedDotted(d[..j]);
    var y := d[j..];
    assert y[1..m] == d[n - m + 1..];
    assert y[0] == '.' && IsWord(y[1..m]) && m == |y|;
  }

  lemma RunHasNoAt(s: string)
    requires IsDottedRun(s)
    ensures '@' !in s
  {
    forall i | 0 <= i < |s| ensures s[i] != '@' {
      assert IsWordChar(s[i]) || IsSeparator(s[i]);
    }
  }

  /**
    The email validator accepts exactly the strings the regular expression
    `^\w+([\.-]?\w+)*@\w+([\.-]?\w+)*(\.\w{2,3})+$` matches.
  */
  lemma EmailValidatorMatchesRegex(e: string)
    ensures IsValidEmail(e) <==> MatchesEmailRegex(e)
  {
    if MatchesEmailRegex(e) {
      RegexImpliesValidator(e);
    }
    if IsValidEmail(e) {
      ValidatorImpliesRegex(e);
    }
  }

  lemma RegexImpliesValidator(e: string)
    requires MatchesEmailRegex(e)
    ensures IsValidEmail(e)
  {
    var i, j :| 0 <= i < j <= |e| &&
      e[i] == '@' && MatchesDotted(e[..i]) && MatchesDotted(e[i + 1..j]) && MatchesGroups(e[j..]);
    RegexPartsValid(e, i, j);
  }

  /** The three parts the expression matches make an email the validator accepts. */
  lemma RegexPartsValid(e: string, i: nat, j: nat)
    requires i < j <= |e| && e[i] == '@'
    requires MatchesDotted(e[..i]) && MatchesDotted(e[i + 1..j]) && MatchesGroups(e[j..])
    ensures IsValidEmail(e)
  {
    MatchedDottedIsRun(e[..i]);
    var d := e[i + 1..];
    assert d[..j - i - 1] == e[i + 1..j];
    assert d[j - i - 1..] == e[j..];
    DomainOfRegex(d, j - i - 1);
    SplitAtFirstAt(e, i);
  }

  /** An `@` after a dotted run and before a domain makes a valid email. */
  lemma SplitAtFirstAt(e: string, i: nat)
    requires i < |e| && e[i] == '@' && IsDottedRun(e[..i]) && IsEmailDomain(e[i + 1..])
    ensures IsValidEmail(e)
  {
    FirstAt(e, i);
  }

  /** When the part before position `i` is a dotted run, the `@` at `i` is the first one. */
  lemma FirstAt(e: string, i: nat)
    requires i < |e| && e[i] == '@' && IsDottedRun(e[..i])
    ensures IndexOf(e, '@') == Some(i)
  {
    RunHasNoAt(e[..i]);
    var k := IndexOf(e, '@');
    assert k.Some?;
    forall x | 0 <= x < i ensures e[x] != '@' {
      assert e[..i][x] == e[x];
    }
    forall x | 0 <= x < k.value ensures e[x] != '@' {
      assert e[..k.value][x] == e[x];
    }
  }

  lemma ValidatorImpliesRegex(e: string)
    requires IsValidEmail(e)
    ensures MatchesEmailRegex(e)
  {
    var i := IndexOf(e, '@').value;
    var d := e[i + 1..];
    RunIsMatchedDotted(e[..i]);
    var j' := RegexOfDomain(d);
    var j := i + 1 + j';
    DomainSlices(e, i, j');
    assert e[i] == '@' && MatchesDotted(e[..i]) && MatchesDotted(e[i + 1..j]) && MatchesGroups(e[j..]);
  }

  /** The parts of the domain are parts of the whole email. */
  lemma DomainSlices(e: string, i: nat, j: nat)
    requires i < |e| && j <= |e| - i - 1
    ensures e[i + 1..][..j] == e[i + 1..i + 1 + j]
    ensures e[i + 1..][j..] == e[i + 1 + j..]
  {
  }

  // ---------------------------------------------------------------------------
  // The schema and the unique email index
  // ---------------------------------------------------------------------------

  /**
    Validating an author: fname, lname and password required and trimmed,
    title one of the enumerated spellings, email trimmed and lower-cased and
    then matching the expression. None is a validation error.
  */
  function ValidateAuthor(d: AuthorDraft): (r: Option<Author>)
    ensures r.Some? <==>
      && CastRequiredTrimmed(d.fname).Some?
      && CastRequiredTrimmed(d.lname).Some?
      && CastRequiredTrimmed(d.password).Some?
      && CastString(d.title).Some? && ParseTitle(CastString(d.title).value).Some?
      && CastString(d.email).Some? && MatchesEmailRegex(NormaliseEmail(CastString(d.email).value))
    ensures r.Some? ==>
      && r.value.fname != [] && IsTrimmed(r.value.fname)
      && r.value.lname != [] && IsTrimmed(r.value.lname)
      && r.value.password != [] && IsTrimmed(r.value.password)
      && r.value.fname == Trim(CastString(d.fname).value)
      && r.value.lname == Trim(CastString(d.lname).value)
      && r.value.password == Trim(CastString(d.password).value)
      && r.value.email == NormaliseEmail(CastString(d.email).value)
      && TitleName(r.value.title) == CastString(d.title).value
  {
    var fname := CastRequiredTrimmed(d.fname);
    var lname := CastRequiredTrimmed(d.lname);
    var password := CastRequiredTrimmed(d.password);
    var title := if CastString(d.title).Some? then ParseTitle(CastString(d.title).value) else None;
    if fname.None? || lname.None? || password.None? || title.None? || CastString(d.email).None? then
      None
    else
      var email := NormaliseEmail(CastString(d.email).value);
      EmailValidatorMatchesRegex(email);
      if !IsValidEmail(email) then None
      else Some(Author(fname.value, lname.value, title.value, email, password.value))
  }

  /** No two stored authors share an email. */
  ghost predicate EmailsUnique(authors: map<Id, Author>) {
    forall a, b | a in authors && b in authors && a != b :: authors[a].email != authors[b].email
  }

  /**
    Storing a new author under a fresh id: a validation error, a duplicate
    id or an email some stored author already has (the unique index) refuses
    the insert.
  */
  function InsertAuthor(authors: map<Id, Author>, id: Id, d: AuthorDraft): (r: Option<map<Id, Author>>)
    ensures r.Some? <==>
      && id !in authors
      && ValidateAuthor(d).Some?
      && forall a | a in authors :: authors[a].email != ValidateAuthor(d).value.email
    ensures r.Some? ==> r.value == authors[id := ValidateAuthor(d).value]
  {
    match ValidateAuthor(d)
    case None => None
    case Some(author) =>
      if id in authors || exists a | a in authors :: authors[a].email == author.email then None
      else Some(authors[id := author])
  }

  /** The unique index keeps emails unique. */
  lemma InsertKeepsEmailsUnique(authors: map<Id, Author>, id: Id, d: AuthorDraft)
    requires EmailsUnique(authors)
    requires InsertAuthor(authors, id, d).Some?
    ensures EmailsUnique(InsertAuthor(authors, id, d).value)
  {
  }
}

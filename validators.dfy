/** `InputValidator` of src/validators.py: the DNI (national identity number) check and the
    GitHub repository link check. Both are pure string functions. Characters are assumed
    ASCII: `str.strip`, `str.isdigit` and the regular expression class `\w` are modelled on
    their ASCII members only. */
module Validators {
  import opened Query
  import opened Decimal

  // ---------------------------------------------------------------------------------------
  // str.strip()

  /** ASCII characters for which Python's `str.isspace` holds: HT, LF, VT, FF, CR,
      the four information separators 0x1C-0x1F, and the space. */
  predicate IsSpace(c: char) {
    c == ' ' || '\t' <= c <= '\r' || '\U{1C}' <= c <= '\U{1F}'
  }

  predicate AllSpace(s: string) { forall i :: 0 <= i < |s| ==> IsSpace(s[i]) }

  /** `s` with its leading whitespace removed. */
  function StripLeft(s: string): (r: string)
    ensures |r| <= |s| && r == s[|s| - |r|..]
    ensures r == [] || !IsSpace(r[0])
  {
    if |s| > 0 && IsSpace(s[0]) then StripLeft(s[1..]) else s
  }

  /** What `StripLeft` removes is whitespace. */
  lemma {:induction false} StripLeftRemovesSpaces(s: string)
    ensures AllSpace(s[..|s| - |StripLeft(s)|])
  {
    if |s| > 0 && IsSpace(s[0]) {
      StripLeftRemovesSpaces(s[1..]);
      assert s[..|s| - |StripLeft(s)|] == [s[0]] + s[1..][..|s[1..]| - |StripLeft(s[1..])|];
    }
  }

  /** `s` with its trailing whitespace removed. */
  function StripRight(s: string): (r: string)
    ensures |r| <= |s| && r == s[..|r|]
    ensures r == [] || !IsSpace(r[|r| - 1])
  {
    if |s| > 0 && IsSpace(s[|s| - 1]) then StripRight(s[..|s| - 1]) else s
  }

  /** What `StripRight` removes is whitespace. */
  lemma {:induction false} StripRightRemovesSpaces(s: string)
    ensures AllSpace(s[|StripRight(s)|..])
  {
    if |s| > 0 && IsSpace(s[|s| - 1]) {
      var t := s[..|s| - 1];
      StripRightRemovesSpaces(t);
      assert s[|StripRight(s)|..] == t[|StripRight(t)|..] + [s[|s| - 1]];
    }
  }

  /** `str.strip()`: a piece of `s` with neither leading nor trailing whitespace. */
  function Strip(s: string): (r: string)
    ensures |r| <= |s|
    ensures r == [] || (!IsSpace(r[0]) && !IsSpace(r[|r| - 1]))
  {
    StripRight(StripLeft(s))
  }

  lemma {:induction false} StripLeftSpaces(w: string, s: string)
    requires AllSpace(w)
    ensures StripLeft(w + s) == StripLeft(s)
  {
    if |w| > 0 {
      assert (w + s)[1..] == w[1..] + s;
      StripLeftSpaces(w[1..], s);
    } else {
      assert w + s == s;
    }
  }

  lemma {:induction false} StripRightSpaces(s: string, w: string)
    requires AllSpace(w)
    ensures StripRight(s + w) == StripRight(s)
  {
    if |w| > 0 {
      assert (s + w)[..|s + w| - 1] == s + w[..|w| - 1];
      StripRightSpaces(s, w[..|w| - 1]);
    } else {
      assert s + w == s;
    }
  }

  /** Trailing text survives left-stripping untouched once a non-space has been reached;
      an all-space string left-strips to nothing whatever whitespace follows it. */
  lemma {:induction false} StripLeftAppend(s: string, w: string)
    requires AllSpace(w)
    ensures StripLeft(s) != [] ==> StripLeft(s + w) == StripLeft(s) + w
    ensures StripLeft(s) == [] ==> StripLeft(s + w) == []
  {
    if |s| > 0 && IsSpace(s[0]) {
      assert (s + w)[1..] == s[1..] + w;
      StripLeftAppend(s[1..], w);
    } else if |s| == 0 {
      StripLeftSpaces(w, []);
      assert w + [] == w;
    }
  }

  /** Surrounding whitespace never changes what `strip` returns. */
  lemma StripIgnoresPadding(before: string, s: string, after: string)
    requires AllSpace(before) && AllSpace(after)
    ensures Strip(before + s + after) == Strip(s)
  {
    assert before + s + after == before + (s + after);
    StripLeftSpaces(before, s + after);
    StripLeftAppend(s, after);
    if StripLeft(s) != [] {
      StripRightSpaces(StripLeft(s), after);
    }
  }

  // ---------------------------------------------------------------------------------------
  // validate_dni

  const RequiredMessage := "DNI es obligatorio"
  const NumericMessage := "DNI debe contener solo números"
  const LengthMessage := "DNI debe tener entre 7 y 8 dígitos"

  datatype DniResult = Valid(dni: nat) | Invalid(errors: seq<string>)

  /** Python's `str.isdigit`: false on the empty string. */
  predicate IsDigitString(s: string) { |s| > 0 && AllDigits(s) }

  predicate LengthOk(s: string) { 7 <= |s| <= 8 }

  /** `InputValidator.validate_dni`: strip, run the three checks, and return the integer
      value or the messages of the failed checks in the order required, numeric, length. */
  function ValidateDni(dni: string): (r: DniResult)
    ensures var s := Strip(dni);
      r.Valid? <==> |s| > 0 && IsDigitString(s) && LengthOk(s)
    ensures r.Valid? ==> AllDigits(Strip(dni)) && r.dni == Value(Strip(dni)) && r.dni < 100000000
  {
    var s := Strip(dni);
    var required := |s| > 0;
    var numeric := IsDigitString(s);
    var length := LengthOk(s);
    if required && numeric && length then
      DniValueBound(s);
      Valid(Value(s))
    else
      Invalid(ErrorMessages(required, numeric, length))
  }

  /** The messages of the failed checks, in the order the checks are listed. */
  function ErrorMessages(required: bool, numeric: bool, length: bool): (e: seq<string>)
    ensures |e| == (if !required then 1 else 0) + (if !numeric then 1 else 0) + (if !length then 1 else 0)
    ensures forall m :: m in e ==> m == RequiredMessage || m == NumericMessage || m == LengthMessage
  {
    (if !required then [RequiredMessage] else [])
    + (if !numeric then [NumericMessage] else [])
    + (if !length then [LengthMessage] else [])
  }

  lemma ErrorMessagesFacts(required: bool, numeric: bool, length: bool)
    requires !(required && numeric && length)
    requires !required ==> !numeric && !length
    ensures var e := ErrorMessages(required, numeric, length);
      && (RequiredMessage in e <==> !required)
      && (NumericMessage in e <==> !numeric)
      && (LengthMessage in e <==> !length)
      && |e| == (if !required then 1 else 0) + (if !numeric then 1 else 0) + (if !length then 1 else 0)
      && |e| >= 1
      && (forall m :: m in e ==> m == RequiredMessage || m == NumericMessage || m == LengthMessage)
      && (RequiredMessage in e ==> e[0] == RequiredMessage)
      && (LengthMessage in e ==> e[|e| - 1] == LengthMessage)
  {
    MessagesDistinct();
    var e := ErrorMessages(required, numeric, length);
    if !required {
      assert e == [RequiredMessage, NumericMessage, LengthMessage];
    } else if !numeric && !length {
      assert e == [NumericMessage, LengthMessage];
    } else if !numeric {
      assert e == [NumericMessage];
    } else {
      assert e == [LengthMessage];
    }
  }

  lemma DniValueBound(s: string)
    requires AllDigits(s) && |s| <= 8
    ensures Value(s) < 100000000
  {
    PowMonotone(|s|, 8);
    assert Pow10(8) == 100000000;
  }

  lemma MessagesDistinct()
    ensures RequiredMessage != NumericMessage && RequiredMessage != LengthMessage
    ensures NumericMessage != LengthMessage
  {
    assert RequiredMessage[4] != NumericMessage[4];
    assert RequiredMessage[4] != LengthMessage[4];
    assert NumericMessage[9] != LengthMessage[9];
  }

  /** On failure the errors are exactly the messages of the failed checks, each once,
      in the order required, numeric, length. */
  lemma ValidateDniErrors(dni: string)
    requires ValidateDni(dni).Invalid?
    ensures var s := Strip(dni); var e := ValidateDni(dni).errors;
      && (RequiredMessage in e <==> |s| == 0)
      && (NumericMessage in e <==> !IsDigitString(s))
      && (LengthMessage in e <==> !LengthOk(s))
      && |e| == (if |s| == 0 then 1 else 0) + (if !IsDigitString(s) then 1 else 0)
              + (if !LengthOk(s) then 1 else 0)
      && |e| >= 1
      && (forall m :: m in e ==> m == RequiredMessage || m == NumericMessage || m == LengthMessage)
      && (RequiredMessage in e ==> e[0] == RequiredMessage)
      && (LengthMessage in e ==> e[|e| - 1] == LengthMessage)
  {
    var s := Strip(dni);
    assert ValidateDni(dni).errors == ErrorMessages(|s| > 0, IsDigitString(s), LengthOk(s));
    ErrorMessagesFacts(|s| > 0, IsDigitString(s), LengthOk(s));
  }

  /** An empty or all-whitespace input fails all three checks. */
  lemma ValidateDniBlank(dni: string)
    requires AllSpace(dni)
    ensures ValidateDni(dni) == Invalid([RequiredMessage, NumericMessage, LengthMessage])
  {
    StripBlank(dni);
    AllErrorMessages();
    ValidateDniEmpty(dni);
  }

  lemma ValidateDniEmpty(dni: string)
    requires Strip(dni) == []
    ensures ValidateDni(dni) == Invalid(ErrorMessages(false, false, false))
  {
  }

  lemma StripBlank(s: string)
    requires AllSpace(s)
    ensures Strip(s) == []
  {
    StripLeftSpaces(s, []);
    assert s + [] == s;
  }

  lemma AllErrorMessages()
    ensures ErrorMessages(false, false, false) == [RequiredMessage, NumericMessage, LengthMessage]
  {
  }

  /** Leading and trailing whitespace never changes the verdict. */
  lemma ValidateDniIgnoresPadding(before: string, dni: string, after: string)
    requires AllSpace(before) && AllSpace(after)
    ensures ValidateDni(before + dni + after) == ValidateDni(dni)
  {
    StripIgnoresPadding(before, dni, after);
  }

  /** Every 7- or 8-digit number, written out, validates to itself. */
  lemma ValidateDniOfNumber(n: nat)
    requires 1000000 <= n < 100000000
    ensures ValidateDni(NatToString(n)) == Valid(n)
  {
    var s := NatToString(n);
    if n < 10000000 {
      NatToStringLength(n, 7);
    } else {
      NatToStringLength(n, 8);
    }
    ValueOfNatToString(n);
    ValidateDniOfDigitString(s);
  }

  /** A string of 7 or 8 digits and nothing else is accepted, with its decimal value. */
  lemma ValidateDniOfDigitString(s: string)
    requires IsDigitString(s) && LengthOk(s)
    ensures ValidateDni(s) == Valid(Value(s))
  {
    StripUnpadded(s);
    ValidateDniOfDigits(s);
  }

  lemma StripUnpadded(s: string)
    requires |s| > 0 && !IsSpace(s[0]) && !IsSpace(s[|s| - 1])
    ensures Strip(s) == s
  {
    assert StripLeft(s) == s;
  }

  lemma ValidateDniOfDigits(dni: string)
    requires IsDigitString(Strip(dni)) && LengthOk(Strip(dni))
    ensures ValidateDni(dni) == Valid(Value(Strip(dni)))
  {
  }

  // ---------------------------------------------------------------------------------------
  // validate_github_link: ^https?://(?:www\.)?github\.com/[\w-]+/[\w-]+/?$ under re.match

  /** An ASCII member of the class `[\w-]`. */
  predicate IsSegmentChar(c: char) {
    'a' <= c <= 'z' || 'A' <= c <= 'Z' || '0' <= c <= '9' || c == '_' || c == '-'
  }

  predicate IsSegment(s: string) {
    |s| > 0 && forall i :: 0 <= i < |s| ==> IsSegmentChar(s[i])
  }

  /** The parts a matching link is made of. `trailingNewline` records the one character
      `$` lets through: under `re.match`, `$` also matches just before a final "\n". */
  datatype GithubLink = GithubLink(secure: bool, www: bool, owner: string, repo: string,
                                   trailingSlash: bool, trailingNewline: bool)
  {
    predicate WellFormed() { IsSegment(owner) && IsSegment(repo) }
  }

  function Render(p: GithubLink): string {
    Scheme(p.secure) + HostPrefix(p.www) + "github.com/" + p.owner + "/" + p.repo
      + Tail(p.trailingSlash, p.trailingNewline)
  }

  /** `Render` grouped the way the parser consumes it: scheme, host, then the path. */
  lemma RenderNested(p: GithubLink)
    ensures Render(p) == Scheme(p.secure) + (HostPrefix(p.www) + ("github.com/"
      + (p.owner + "/" + p.repo + Tail(p.trailingSlash, p.trailingNewline))))
  {
    var path := p.owner + "/" + p.repo + Tail(p.trailingSlash, p.trailingNewline);
    var a, b := Scheme(p.secure), HostPrefix(p.www);
    assert Render(p) == a + b + "github.com/" + path;
    assert a + b + "github.com/" + path == a + (b + ("github.com/" + path));
  }

  /** Length of the longest prefix of `s` made of segment characters. */
  function SegmentRun(s: string): (n: nat)
    ensures n <= |s|
    ensures forall i :: 0 <= i < n ==> IsSegmentChar(s[i])
    ensures n == |s| || !IsSegmentChar(s[n])
  {
    if |s| > 0 && IsSegmentChar(s[0]) then 1 + SegmentRun(s[1..]) else 0
  }

  /** The tail after the repository segment: optional "/", then the end or a final "\n". */
  function ParseTail(t: string): Option<(bool, bool)> {
    if t == "" then Some((false, false))
    else if t == "/" then Some((true, false))
    else if t == "\n" then Some((false, true))
    else if t == "/\n" then Some((true, true))
    else None
  }

  /** A maximal non-empty run of `[\w-]` at the front of `s`, and what follows it. */
  function SplitSegment(s: string): Option<(string, string)> {
    var n := SegmentRun(s);
    if n == 0 then None else Some((s[..n], s[n..]))
  }

  /** The repository segment and the tail after it. */
  function ParseRepo(s: string): Option<(string, bool, bool)> {
    match SplitSegment(s)
    case None => None
    case Some(second) =>
      match ParseTail(second.1)
      case None => None
      case Some(tail) => Some((second.0, tail.0, tail.1))
  }

  /** "owner/repo" followed by the tail. */
  function ParsePath(s: string): Option<(string, string, bool, bool)> {
    match SplitSegment(s)
    case None => None
    case Some(first) =>
      if first.1 == [] || first.1[0] != '/' then None
      else match ParseRepo(first.1[1..])
        case None => None
        case Some(repo) => Some((first.0, repo.0, repo.1, repo.2))
  }

  function Scheme(secure: bool): string { if secure then "https://" else "http://" }

  function HostPrefix(www: bool): string { if www then "www." else "" }

  function Tail(slash: bool, nl: bool): string {
    (if slash then "/" else "") + (if nl then "\n" else "")
  }

  /** `https?://`: whether the `s` is present, and the rest. */
  function ParseScheme(s: string): Option<(bool, string)> {
    if "https://" <= s then Some((true, s[8..]))
    else if "http://" <= s then Some((false, s[7..]))
    else None
  }

  /** `(?:www\.)?`: taken exactly when present. Backtracking cannot help the pattern here:
      when "www." is present, "github.com/" cannot start at its first character. */
  function ParseHost(s: string): (bool, string) {
    if "www." <= s then (true, s[4..]) else (false, s)
  }

  /** The whole pattern, read left to right: the parts found are always well formed. */
  function Parse(s: string): (r: Option<GithubLink>)
    ensures r.Some? ==> r.value.WellFormed()
  {
    match ParseScheme(s)
    case None => None
    case Some(scheme) =>
      var (www, r) := ParseHost(scheme.1);
      if !("github.com/" <= r) then None
      else match ParsePath(r[11..])
        case None => None
        case Some(path) =>
          ParsePathShape(r[11..]);
          Some(GithubLink(scheme.0, www, path.0, path.1, path.2, path.3))
  }

  /** `InputValidator.validate_github_link`: the link itself when it matches, else None. */
  function ValidateGithubLink(link: string): (r: Option<string>)
    ensures r == None || r == Some(link)
  {
    if Parse(link).Some? then Some(link) else None
  }

  lemma {:induction false} SegmentRunOf(w: string, t: string)
    requires IsSegment(w) || w == []
    requires t == [] || !IsSegmentChar(t[0])
    ensures SegmentRun(w + t) == |w|
  {
    if |w| > 0 {
      assert (w + t)[1..] == w[1..] + t;
      SegmentRunOf(w[1..], t);
    }
  }

  lemma SplitSegmentOf(w: string, t: string)
    requires IsSegment(w)
    requires t == [] || !IsSegmentChar(t[0])
    ensures SplitSegment(w + t) == Some((w, t))
  {
    SegmentRunOf(w, t);
    assert (w + t)[..|w|] == w;
    assert (w + t)[|w|..] == t;
  }

  lemma SplitSegmentShape(s: string)
    requires SplitSegment(s).Some?
    ensures var (w, t) := SplitSegment(s).value;
      IsSegment(w) && s == w + t && (t == [] || !IsSegmentChar(t[0]))
  {
    var n := SegmentRun(s);
    assert s == s[..n] + s[n..];
  }

  lemma ParseTailOf(slash: bool, nl: bool)
    ensures ParseTail(Tail(slash, nl)) == Some((slash, nl))
  {
  }

  lemma ParseTailShape(t: string)
    requires ParseTail(t).Some?
    ensures t == Tail(ParseTail(t).value.0, ParseTail(t).value.1)
  {
  }

  lemma ParseRepoOf(repo: string, slash: bool, nl: bool)
    requires IsSegment(repo)
    ensures ParseRepo(repo + Tail(slash, nl)) == Some((repo, slash, nl))
  {
    var tail := Tail(slash, nl);
    ParseTailOf(slash, nl);
    assert tail == [] || tail[0] == '/' || tail[0] == '\n';
    SplitSegmentOf(repo, tail);
  }

  lemma ParseRepoShape(s: string)
    requires ParseRepo(s).Some?
    ensures var (repo, slash, nl) := ParseRepo(s).value;
      IsSegment(repo) && s == repo + Tail(slash, nl)
  {
    SplitSegmentShape(s);
    ParseTailShape(SplitSegment(s).value.1);
  }

  lemma ParsePathOf(owner: string, repo: string, slash: bool, nl: bool)
    requires IsSegment(owner) && IsSegment(repo)
    ensures ParsePath(owner + "/" + repo + Tail(slash, nl)) == Some((owner, repo, slash, nl))
  {
    var tail := Tail(slash, nl);
    var rest := "/" + (repo + tail);
    assert owner + "/" + repo + tail == owner + rest;
    SplitSegmentOf(owner, rest);
    assert rest[1..] == repo + tail;
    ParseRepoOf(repo, slash, nl);
  }

  lemma ParsePathShape(s: string)
    requires ParsePath(s).Some?
    ensures var (owner, repo, slash, nl) := ParsePath(s).value;
      IsSegment(owner) && IsSegment(repo) && s == owner + "/" + repo + Tail(slash, nl)
  {
    SplitSegmentShape(s);
    var (owner, rest) := SplitSegment(s).value;
    ParseRepoShape(rest[1..]);
    var (repo, slash, nl) := ParseRepo(rest[1..]).value;
    assert ParsePath(s).value == (owner, repo, slash, nl);
    JoinPath(owner, rest, repo, Tail(slash, nl));
  }

  lemma JoinPath(owner: string, rest: string, repo: string, tail: string)
    requires rest != [] && rest[0] == '/' && rest[1..] == repo + tail
    ensures owner + rest == owner + "/" + repo + tail
  {
    assert rest == "/" + (repo + tail);
  }

  lemma ParseSchemeOf(secure: bool, rest: string)
    ensures ParseScheme(Scheme(secure) + rest) == Some((secure, rest))
  {
    var s := Scheme(secure) + rest;
    if !secure {
      assert s[4] == ':';
    }
    assert s[|Scheme(secure)|..] == rest;
  }

  lemma ParseHostOf(www: bool, rest: string)
    requires "github.com/" <= rest
    ensures ParseHost(HostPrefix(www) + rest) == (www, rest)
  {
    var s := HostPrefix(www) + rest;
    if !www {
      assert s == rest;
      assert rest[0] == 'g';
      assert !("www." <= s);
    } else {
      assert s[4..] == rest;
    }
  }

  /** Every well-formed link parses back to its own parts. */
  lemma ParseRender(p: GithubLink)
    requires p.WellFormed()
    ensures Parse(Render(p)) == Some(p)
  {
    RenderNested(p);
    var path := p.owner + "/" + p.repo + Tail(p.trailingSlash, p.trailingNewline);
    var r := "github.com/" + path;
    ParseSchemeOf(p.secure, HostPrefix(p.www) + r);
    ParseHostOf(p.www, r);
    assert r[11..] == path;
    ParsePathOf(p.owner, p.repo, p.trailingSlash, p.trailingNewline);
  }

  lemma ParseSchemeShape(s: string)
    requires ParseScheme(s).Some?
    ensures s == Scheme(ParseScheme(s).value.0) + ParseScheme(s).value.1
  {
    if "https://" <= s {
      assert s == s[..8] + s[8..];
    } else {
      assert s == s[..7] + s[7..];
    }
  }

  lemma ParseHostShape(s: string)
    ensures s == HostPrefix(ParseHost(s).0) + ParseHost(s).1
  {
    if "www." <= s {
      assert s == s[..4] + s[4..];
    }
  }

  /** Whatever parses is the rendering of well-formed parts. */
  lemma RenderParse(s: string)
    requires Parse(s).Some?
    ensures Parse(s).value.WellFormed() && Render(Parse(s).value) == s
  {
    ParseSteps(s);
    var scheme := ParseScheme(s).value;
    ParseSchemeShape(s);
    var (www, r) := ParseHost(scheme.1);
    ParseHostShape(scheme.1);
    var q := r[11..];
    HostTail(r);
    ParsePathShape(q);
    JoinRender(Parse(s).value, s, scheme.1, r, q);
  }

  lemma HostTail(r: string)
    requires "github.com/" <= r
    ensures r == "github.com/" + r[11..]
  {
    assert r == r[..11] + r[11..];
  }

  /** The stages a successful `Parse` went through. */
  lemma ParseSteps(s: string)
    requires Parse(s).Some?
    ensures ParseScheme(s).Some?
    ensures var (www, r) := ParseHost(ParseScheme(s).value.1);
      && "github.com/" <= r && ParsePath(r[11..]).Some?
      && var path := ParsePath(r[11..]).value;
      Parse(s).value == GithubLink(ParseScheme(s).value.0, www, path.0, path.1, path.2, path.3)
  {
  }

  lemma JoinRender(p: GithubLink, s: string, afterScheme: string, r: string, q: string)
    requires s == Scheme(p.secure) + afterScheme
    requires afterScheme == HostPrefix(p.www) + r
    requires r == "github.com/" + q
    requires q == p.owner + "/" + p.repo + Tail(p.trailingSlash, p.trailingNewline)
    ensures Render(p) == s
  {
    RenderNested(p);
  }

  /** A link is accepted exactly when it is the rendering of well-formed parts: two non-empty
      owner/repo segments of `[\w-]`, an optional trailing "/", and at most a final "\n". */
  lemma ValidateGithubLinkAccepts(p: GithubLink)
    requires p.WellFormed()
    ensures ValidateGithubLink(Render(p)) == Some(Render(p))
  {
    ParseRender(p);
  }

  lemma ValidateGithubLinkSound(link: string)
    requires ValidateGithubLink(link).Some?
    ensures Parse(link).Some? && Parse(link).value.WellFormed() && Render(Parse(link).value) == link
  {
    RenderParse(link);
  }

  /** Validating an accepted link again accepts it with the same result. */
  lemma ValidateGithubLinkIdempotent(link: string)
    requires ValidateGithubLink(link).Some?
    ensures ValidateGithubLink(ValidateGithubLink(link).value) == ValidateGithubLink(link)
  {
  }
}

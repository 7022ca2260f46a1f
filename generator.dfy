/**
 * `generatePassword`: the options are merged over the default settings, a
 * character set is built from the enabled classes (lower case, upper case,
 * digits, symbols, in that order; lower case alone if none is enabled), the
 * length is clamped to 8..64 and each character is drawn with `Math.random`,
 * which is an oracle here: `random(i)` is the value of the i-th call.
 */
module Generator {
  import opened Wrappers
  import opened Records

  /** `Partial<AppSettings>`: a property that is not given is `None`. */
  datatype PasswordOptions = PasswordOptions(
    autoFillEnabled: Option<bool>,
    lockAfterMinutes: Option<int>,
    passwordLength: Option<int>,
    useSymbols: Option<bool>,
    useNumbers: Option<bool>,
    useLowercase: Option<bool>,
    useUppercase: Option<bool>)

  function GetOr<T>(o: Option<T>, default: T): T {
    match o
    case Some(v) => v
    case None => default
  }

  /** `{ ...DEFAULT_SETTINGS, ...options }`: every given property overrides the default. */
  function WithDefaults(o: PasswordOptions): (s: AppSettings)
    ensures o.passwordLength.None? ==> s.passwordLength == 16
    ensures o.passwordLength.Some? ==> s.passwordLength == o.passwordLength.value
    ensures s.useLowercase == (o.useLowercase != Some(false))
    ensures s.useUppercase == (o.useUppercase != Some(false))
    ensures s.useNumbers == (o.useNumbers != Some(false))
    ensures s.useSymbols == (o.useSymbols != Some(false))
  {
    AppSettings(
      autoFillEnabled := GetOr(o.autoFillEnabled, DefaultSettings.autoFillEnabled),
      lockAfterMinutes := GetOr(o.lockAfterMinutes, DefaultSettings.lockAfterMinutes),
      passwordLength := GetOr(o.passwordLength, DefaultSettings.passwordLength),
      useSymbols := GetOr(o.useSymbols, DefaultSettings.useSymbols),
      useNumbers := GetOr(o.useNumbers, DefaultSettings.useNumbers),
      useLowercase := GetOr(o.useLowercase, DefaultSettings.useLowercase),
      useUppercase := GetOr(o.useUppercase, DefaultSettings.useUppercase))
  }

  const Lowercase: string := "abcdefghijklmnopqrstuvwxyz"
  const Uppercase: string := "ABCDEFGHIJKLMNOPQRSTUVWXYZ"
  const Digits: string := "0123456789"
  const Symbols: string := "!@#$%^&*()_+-=[]{}|;:,.<>?"

  /** A class's characters when it is enabled, nothing otherwise. */
  function Part(on: bool, cls: string): string {
    if on then cls else ""
  }

  /** The enabled classes in the fixed order lower, upper, digits, symbols. */
  function Built(s: AppSettings): string {
    Part(s.useLowercase, Lowercase) + Part(s.useUppercase, Uppercase) + Part(s.useNumbers, Digits)
      + Part(s.useSymbols, Symbols)
  }

  /** The character set for the settings: the enabled classes, lower case alone when no class
      is enabled. */
  function Charset(s: AppSettings): (r: string)
    ensures |r| > 0
  {
    var built := Built(s);
    if built == "" then Lowercase else built
  }

  /** No class enabled means no class is asked for. */
  predicate NoClassEnabled(s: AppSettings) {
    !s.useLowercase && !s.useUppercase && !s.useNumbers && !s.useSymbols
  }

  /** A run of consecutive characters holds exactly the characters of its range. */
  lemma RunMembers(s: string, lo: char, c: char)
    requires forall i :: 0 <= i < |s| ==> s[i] as int == lo as int + i
    ensures c in s <==> lo as int <= c as int < lo as int + |s|
  {
    if lo as int <= c as int < lo as int + |s| {
      assert s[c as int - lo as int] == c;
    }
  }

  lemma LowercaseMembers(c: char)
    ensures c in Lowercase <==> 'a' <= c <= 'z'
  {
    RunMembers(Lowercase, 'a', c);
  }

  lemma UppercaseMembers(c: char)
    ensures c in Uppercase <==> 'A' <= c <= 'Z'
  {
    RunMembers(Uppercase, 'A', c);
  }

  lemma DigitMembers(c: char)
    ensures c in Digits <==> '0' <= c <= '9'
  {
    RunMembers(Digits, '0', c);
  }

  /** A character is in the set exactly when it belongs to an enabled class (or is a lower-case
      letter and nothing is enabled); the set is never empty. */
  lemma CharsetMembers(s: AppSettings, c: char)
    ensures |Charset(s)| > 0
    ensures c in Charset(s) <==>
      || (('a' <= c <= 'z') && (s.useLowercase || NoClassEnabled(s)))
      || (('A' <= c <= 'Z') && s.useUppercase)
      || (('0' <= c <= '9') && s.useNumbers)
      || (c in Symbols && s.useSymbols)
  {
    LowercaseMembers(c);
    UppercaseMembers(c);
    DigitMembers(c);
  }

  /** With no class enabled the set is the lower-case letters alone; otherwise its size is the
      sum of the sizes of the enabled classes. */
  lemma NoClassMeansLowercase(s: AppSettings)
    ensures NoClassEnabled(s) ==> Charset(s) == Lowercase
    ensures !NoClassEnabled(s) ==>
      |Charset(s)| == (if s.useLowercase then 26 else 0) + (if s.useUppercase then 26 else 0)
                      + (if s.useNumbers then 10 else 0) + (if s.useSymbols then |Symbols| else 0)
  {
  }

  /** `Math.max(8, Math.min(length, 64))`. */
  function ClampLength(n: int): (r: int)
    ensures 8 <= r <= 64
    ensures 8 <= n <= 64 ==> r == n
    ensures n < 8 ==> r == 8
    ensures n > 64 ==> r == 64
  {
    if n < 8 then 8 else if n > 64 then 64 else n
  }

  /** `Math.floor(r * n)` for a draw r of `Math.random`, which lies in [0, 1). */
  function DrawIndex(r: real, n: nat): (k: int)
    requires 0.0 <= r < 1.0 && n > 0
    ensures 0 <= k < n
  {
    assert r * (n as real) < n as real;
    (r * (n as real)).Floor
  }

  /** The character-set half of `generatePassword`: each enabled class appended in turn, lower
      case when the result is empty. */
  method BuildCharset(settings: AppSettings) returns (charset: string)
    ensures charset == Charset(settings)
  {
    charset := "";
    if settings.useLowercase { charset := charset + Lowercase; }
    assert charset == Part(settings.useLowercase, Lowercase);
    if settings.useUppercase { charset := charset + Uppercase; }
    assert charset == Part(settings.useLowercase, Lowercase) + Part(settings.useUppercase, Uppercase);
    if settings.useNumbers { charset := charset + Digits; }
    assert charset == Part(settings.useLowercase, Lowercase) + Part(settings.useUppercase, Uppercase)
      + Part(settings.useNumbers, Digits);
    if settings.useSymbols { charset := charset + Symbols; }
    assert charset == Built(settings);

    if |charset| == 0 { charset := Lowercase; }
  }

  /** `generatePassword(options)` with `Math.random` answering `random(i)` on its i-th call. */
  method GeneratePassword(options: PasswordOptions, random: nat -> real) returns (password: string)
    requires forall i :: 0.0 <= random(i) < 1.0
    ensures var settings := WithDefaults(options);
      |password| == ClampLength(settings.passwordLength)
    ensures forall i :: 0 <= i < |password| ==> password[i] in Charset(WithDefaults(options))
    ensures var cs := Charset(WithDefaults(options));
      |cs| > 0 && forall i :: 0 <= i < |password| ==> password[i] == cs[DrawIndex(random(i), |cs|)]
  {
    var settings := WithDefaults(options);
    var charset := BuildCharset(settings);

    password := "";
    var length := if 8 < (if settings.passwordLength < 64 then settings.passwordLength else 64)
      then (if settings.passwordLength < 64 then settings.passwordLength else 64) else 8;

    for i := 0 to length
      invariant |password| == i
      invariant forall j :: 0 <= j < i ==> password[j] == charset[DrawIndex(random(j), |charset|)]
    {
      var randomIndex := DrawIndex(random(i), |charset|);
      password := password + [charset[randomIndex]];
    }
  }
}

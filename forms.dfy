/**
 * The form handlers of script.js: the submit check shared by every form (required fields
 * must hold more than white space, a filled-in email field must look like local@domain.tld)
 * and the contact form's phone field, which drops every character that is not a digit.
 */
module Forms {
  import opened Rx

  /** JavaScript's white space and line terminators: what `\s` matches and trim() removes. */
  predicate IsSpace(c: char) {
    c == '\t' || c == '\n' || c == '\U{000B}' || c == '\U{000C}' || c == '\r' || c == ' ' ||
    c == '\U{00A0}' || c == '\U{1680}' || '\U{2000}' <= c <= '\U{200A}' ||
    c == '\U{2028}' || c == '\U{2029}' || c == '\U{202F}' || c == '\U{205F}' ||
    c == '\U{3000}' || c == '\U{FEFF}'
  }

  /** s without its leading white space. */
  function TrimStart(s: string): string {
    if s != [] && IsSpace(s[0]) then TrimStart(s[1..]) else s
  }

  /** s without its trailing white space. */
  function TrimEnd(s: string): string {
    if s != [] && IsSpace(s[|s| - 1]) then TrimEnd(s[..|s| - 1]) else s
  }

  /** String.prototype.trim. */
  function Trim(s: string): string {
    TrimEnd(TrimStart(s))
  }

  /** TrimStart removes a run of white space from the front, and no more. */
  lemma {:induction false} TrimStartShape(s: string)
    ensures var r := TrimStart(s);
      |r| <= |s| && r == s[|s| - |r|..] &&
      (forall i :: 0 <= i < |s| - |r| ==> IsSpace(s[i])) &&
      (r == [] || !IsSpace(r[0]))
  {
    if s != [] && IsSpace(s[0]) {
      var rest := s[1..];
      TrimStartShape(rest);
      var r := TrimStart(rest);
      assert s[|s| - |r|..] == rest[|rest| - |r|..];
      forall i | 0 <= i < |s| - |r| ensures IsSpace(s[i]) {
        if i > 0 {
          assert s[i] == rest[i - 1];
        }
      }
    }
  }

  /** TrimEnd removes a run of white space from the back, and no more. */
  lemma {:induction false} TrimEndShape(s: string)
    ensures var r := TrimEnd(s);
      |r| <= |s| && r == s[..|r|] &&
      (forall i :: |r| <= i < |s| ==> IsSpace(s[i])) &&
      (r == [] || !IsSpace(r[|r| - 1]))
  {
    if s != [] && IsSpace(s[|s| - 1]) {
      TrimEndShape(s[..|s| - 1]);
    }
  }

  /** A field counts as empty when trimming leaves nothing: exactly when it is all white space. */
  lemma TrimEmptyIff(s: string)
    ensures Trim(s) == [] <==> forall i :: 0 <= i < |s| ==> IsSpace(s[i])
  {
    var t := TrimStart(s);
    TrimStartShape(s);
    TrimEndShape(t);
    if Trim(s) != [] {
      assert !IsSpace(t[0]) && t[0] == s[|s| - |t|];
    }
  }

  /** The first index of x in s, |s| when there is none (indexOf, or find over a NodeList). */
  function IndexOf<T(==)>(s: seq<T>, x: T): (r: nat)
    ensures r <= |s| && (r < |s| ==> s[r] == x)
    ensures forall k :: 0 <= k < r ==> s[k] != x
  {
    if s == [] then 0 else if s[0] == x then 0 else 1 + IndexOf(s[1..], x)
  }

  /** One run of the character class [^\s@]+: at least one character, no white space, no '@'. */
  predicate EmailPart(x: string) {
    x != [] && forall k :: 0 <= k < |x| ==> !IsSpace(x[k]) && x[k] != '@'
  }

  /** The whole value matches ^[^\s@]+@[^\s@]+\.[^\s@]+$, a split at an '@' and a later '.'. */
  ghost predicate EmailMatches(v: string) {
    exists i, j :: 0 <= i < j < |v| && v[i] == '@' && v[j] == '.' &&
      EmailPart(v[..i]) && EmailPart(v[i + 1..j]) && EmailPart(v[j + 1..])
  }

  /**
   * The email test, decided directly: no white space, exactly one '@', not first, and a '.'
   * after it with a character on either side.
   */
  predicate EmailOk(v: string) {
    var at := IndexOf(v, '@');
    0 < at < |v| &&
    (forall k :: 0 <= k < |v| ==> !IsSpace(v[k]) && (v[k] == '@' ==> k == at)) &&
    exists j :: at + 1 < j < |v| - 1 && v[j] == '.'
  }

  /** Every value the direct test accepts splits as the regular expression requires. */
  lemma EmailOkMatches(v: string)
    requires EmailOk(v)
    ensures EmailMatches(v)
  {
    var at := IndexOf(v, '@');
    var j :| at + 1 < j < |v| - 1 && v[j] == '.';
    var local, domain, tld := v[..at], v[at + 1..j], v[j + 1..];
    assert forall k :: 0 <= k < |local| ==> local[k] == v[k];
    assert forall k :: 0 <= k < |domain| ==> domain[k] == v[at + 1 + k];
    assert forall k :: 0 <= k < |tld| ==> tld[k] == v[j + 1 + k];
  }

  /** Every value the regular expression matches passes the direct test. */
  lemma EmailMatchesOk(v: string)
    requires EmailMatches(v)
    ensures EmailOk(v)
  {
    var i, j :| 0 <= i < j < |v| && v[i] == '@' && v[j] == '.' &&
      EmailPart(v[..i]) && EmailPart(v[i + 1..j]) && EmailPart(v[j + 1..]);
    SplitChars(v, i, j);
    OnlyAt(v, i);
    assert i + 1 < j < |v| - 1 && v[j] == '.';
  }

  /** Around the '@' and the '.', the three runs hold neither white space nor another '@'. */
  lemma SplitChars(v: string, i: int, j: int)
    requires 0 <= i < j < |v| && v[i] == '@' && v[j] == '.'
    requires EmailPart(v[..i]) && EmailPart(v[i + 1..j]) && EmailPart(v[j + 1..])
    ensures forall k :: 0 <= k < |v| ==> !IsSpace(v[k]) && (v[k] == '@' ==> k == i)
  {
    forall k | 0 <= k < |v| ensures !IsSpace(v[k]) && (v[k] == '@' ==> k == i) {
      if k < i {
        PartChar(v, 0, i, k);
      } else if i < k < j {
        PartChar(v, i + 1, j, k);
      } else if j < k {
        PartChar(v, j + 1, |v|, k);
      }
    }
  }

  /** The only '@' of v is the first one. */
  lemma OnlyAt(v: string, i: int)
    requires 0 <= i < |v| && v[i] == '@' && forall k :: 0 <= k < |v| && v[k] == '@' ==> k == i
    ensures IndexOf(v, '@') == i
  {
  }

  /** A character inside a run of [^\s@]+ is neither white space nor '@'. */
  lemma PartChar(v: string, lo: int, hi: int, k: int)
    requires 0 <= lo <= k < hi <= |v| && EmailPart(v[lo..hi])
    ensures !IsSpace(v[k]) && v[k] != '@'
  {
    assert v[k] == v[lo..hi][k - lo];
  }

  /** The direct test accepts exactly the values the regular expression matches. */
  lemma EmailOkIff(v: string)
    ensures EmailOk(v) <==> EmailMatches(v)
  {
    if EmailOk(v) {
      EmailOkMatches(v);
    }
    if EmailMatches(v) {
      EmailMatchesOk(v);
    }
  }

  /** The value the phone field keeps: its digits, in order. */
  function Digits(v: string): (r: string)
    ensures |r| <= |v|
    ensures forall k :: 0 <= k < |r| ==> IsDigit(r[k])
  {
    if v == [] then [] else (if IsDigit(v[0]) then [v[0]] else []) + Digits(v[1..])
  }

  /** The phone filter as written: value.replace(/\D/g, ''). */
  function PhoneFilter(v: string): string {
    ReplaceAll(v, [NonDigit], Const(""))
  }

  lemma {:induction false} PhoneFilterFrom(v: string, i: nat)
    requires i <= |v|
    ensures ReplaceAllFrom(v, [NonDigit], Const(""), i) == Digits(v[i..])
    decreases |v| - i
  {
    if i < |v| {
      var p: Pattern := [NonDigit];
      PhoneFilterFrom(v, i + 1);
      assert v[i..][1..] == v[i + 1..];
      if MatchesAt(p, v, i) {
        assert Accepts(p[0], v[i + 0]);
        ConstExpands("", v[i..i + 1]);
      } else {
        assert IsDigit(v[i]);
      }
    }
  }

  /** The filter keeps exactly the digits, in order, and drops everything else. */
  lemma PhoneFilterKeepsDigits(v: string)
    ensures PhoneFilter(v) == Digits(v)
  {
    PhoneFilterFrom(v, 0);
  }

  /** A value of digits only passes unchanged, so a second filtering changes nothing. */
  lemma {:induction false} DigitsOfDigits(v: string)
    requires forall k :: 0 <= k < |v| ==> IsDigit(v[k])
    ensures Digits(v) == v
  {
    if v != [] {
      DigitsOfDigits(v[1..]);
    }
  }

  lemma PhoneFilterIdempotent(v: string)
    ensures PhoneFilter(PhoneFilter(v)) == PhoneFilter(v)
  {
    PhoneFilterKeepsDigits(v);
    PhoneFilterKeepsDigits(Digits(v));
    DigitsOfDigits(Digits(v));
  }

  /** The contact form's phone input; its input handler keeps the digits of what was typed. */
  class PhoneInput {
    var value: string

    constructor (value0: string)
      ensures value == value0
    {
      value := value0;
    }

    method OnInput()
      modifies this
      ensures value == Digits(old(value))
    {
      PhoneFilterKeepsDigits(value);
      value := PhoneFilter(value);
    }
  }

  /**
   * Whether the submit handler prevents submission: a required field is empty after
   * trimming, or the form's first email field holds a value the email test rejects.
   */
  ghost predicate SubmitBlocked(values: seq<string>, required: seq<bool>, isEmail: seq<bool>)
    requires |required| == |isEmail| == |values|
  {
    (exists i :: 0 <= i < |values| && required[i] && Trim(values[i]) == []) ||
    (var e := IndexOf(isEmail, true); e < |values| && values[e] != [] && !EmailOk(values[e]))
  }

  /** A form's inputs and textareas, in document order. */
  class Form {
    /** The value of each field. */
    const values: seq<string>
    /** Whether the field is an input or textarea with the required attribute. */
    const required: seq<bool>
    /** Whether the field is an input of type email. */
    const isEmail: seq<bool>
    /** Whether the field has the `error` class. */
    const error: array<bool>

    ghost predicate Valid()
      reads this
    {
      |required| == |isEmail| == |values| == error.Length
    }

    constructor (values0: seq<string>, required0: seq<bool>, isEmail0: seq<bool>)
      requires |required0| == |isEmail0| == |values0|
      ensures Valid() && fresh(error) && values == values0 && required == required0 && isEmail == isEmail0
    {
      values, required, isEmail := values0, required0, isEmail0;
      error := new bool[|values0|](i => false);
    }

    /**
     * The submit handler: marks every required field by whether it is empty, then the email
     * field, when filled in, by the email test; the result says whether submission is prevented.
     */
    method Submit() returns (prevented: bool)
      requires Valid()
      modifies error
      ensures prevented == SubmitBlocked(values, required, isEmail)
      ensures var e := IndexOf(isEmail, true);
        forall i :: 0 <= i < |values| ==>
          error[i] == (if i == e && values[i] != [] then !EmailOk(values[i])
                       else if required[i] then Trim(values[i]) == []
                       else old(error[i]))
    {
      var isValid := true;
      for i := 0 to |values|
        invariant isValid == !exists k :: 0 <= k < i && required[k] && Trim(values[k]) == []
        invariant forall k :: 0 <= k < |values| ==>
          error[k] == (if k < i && required[k] then Trim(values[k]) == [] else old(error[k]))
      {
        if required[i] {
          if Trim(values[i]) == [] {
            error[i] := true;
            isValid := false;
          } else {
            error[i] := false;
          }
        }
      }
      var e := IndexOf(isEmail, true);
      if e < |values| && values[e] != [] {
        if !EmailOk(values[e]) {
          error[e] := true;
          isValid := false;
        } else {
          error[e] := false;
        }
      }
      prevented := !isValid;
    }
  }
}

/**
 * `anonymizeData`: masks a name, an email address and a phone number with template
 * strings. A JavaScript value that is missing (`email[0]` of an empty string, the
 * second field of `split('@')` when there is no `@`) is written as `undefined` by
 * the template, and the model writes it that way too.
 */
module Anonymization {

  /** The text a template literal writes for a missing value. */
  const Undefined: string := "undefined"

  /** The three masked fields of the returned object. */
  datatype Anonymized = Anonymized(name: string, email: string, phone: string)

  function Min(a: nat, b: nat): nat {
    if a <= b then a else b
  }

  /** `s.slice(-k)` for `k > 0`: the last `k` characters, or all of `s` when it is shorter. */
  function SliceLast(s: string, k: nat): (r: string)
    requires k > 0
    ensures |r| == Min(k, |s|)
    ensures s == s[..|s| - |r|] + r
  {
    s[(if |s| >= k then |s| - k else 0)..]
  }

  /** `s.split(sep)` for a one-character separator: the maximal runs between separators, in order. */
  function Split(s: string, sep: char): (r: seq<string>)
    ensures |r| >= 1
  {
    if s == [] then [[]]
    else
      var rest := Split(s[1..], sep);
      if s[0] == sep then [[]] + rest else [[s[0]] + rest[0]] + rest[1..]
  }

  /** `pieces.join(sep)` */
  function Join(pieces: seq<string>, sep: char): string
    requires |pieces| >= 1
  {
    if |pieces| == 1 then pieces[0] else pieces[0] + [sep] + Join(pieces[1..], sep)
  }

  /** Joining the pieces with the separator gives back the string, and no piece contains the separator. */
  lemma {:induction false} SplitJoin(s: string, sep: char)
    ensures Join(Split(s, sep), sep) == s
    ensures forall i :: 0 <= i < |Split(s, sep)| ==> sep !in Split(s, sep)[i]
  {
    if s != [] {
      var rest := Split(s[1..], sep);
      SplitJoin(s[1..], sep);
      if s[0] == sep {
        assert ([[]] + rest)[1..] == rest;
      } else {
        var r := [[s[0]] + rest[0]] + rest[1..];
        if |rest| > 1 {
          assert r[1..] == rest[1..];
          assert Join(rest, sep) == rest[0] + [sep] + Join(rest[1..], sep);
        }
        forall i | 0 <= i < |r| ensures sep !in r[i] {
          if i > 0 {
            assert r[i] == rest[i];
          }
        }
      }
    }
  }

  /** A string without the separator is one piece. */
  lemma {:induction false} SplitWithoutSeparator(s: string, sep: char)
    requires sep !in s
    ensures Split(s, sep) == [s]
  {
    if s != [] {
      assert sep !in s[1..] by {
        assert forall c :: c in s[1..] ==> c in s;
      }
      SplitWithoutSeparator(s[1..], sep);
      assert [s[0]] + s[1..] == s;
    }
  }

  /** A separator-free head followed by the separator splits off as the first piece. */
  lemma {:induction false} SplitAfterFirst(a: string, sep: char, t: string)
    requires sep !in a
    ensures Split(a + [sep] + t, sep) == [a] + Split(t, sep)
  {
    if a != [] {
      assert sep !in a[1..] by {
        assert forall c :: c in a[1..] ==> c in a;
      }
      SplitAfterFirst(a[1..], sep, t);
      assert (a + [sep] + t)[1..] == a[1..] + [sep] + t;
      assert ([a[1..]] + Split(t, sep))[1..] == Split(t, sep);
      assert [a[0]] + a[1..] == a;
    } else {
      assert (a + [sep] + t)[1..] == t;
    }
  }

  /** A separator-free head that ends the string or is followed by the separator is the first piece. */
  lemma {:induction false} SplitFirstPiece(b: string, sep: char, rest: string)
    requires sep !in b
    requires rest == [] || rest[0] == sep
    ensures Split(b + rest, sep)[0] == b
  {
    if b != [] {
      SplitFirstPiece(b[1..], sep, rest);
      assert (b + rest)[1..] == b[1..] + rest;
    } else {
      assert b + rest == rest;
    }
  }

  /**
   * The second field of the split is the text between the first separator and the
   * next one (or the end).
   */
  lemma SplitSecondField(a: string, sep: char, b: string, rest: string)
    requires sep !in a && sep !in b
    requires rest == [] || rest[0] == sep
    ensures |Split(a + [sep] + b + rest, sep)| >= 2
    ensures Split(a + [sep] + b + rest, sep)[1] == b
  {
    assert a + [sep] + b + rest == a + [sep] + (b + rest);
    SplitAfterFirst(a, sep, b + rest);
    SplitFirstPiece(b, sep, rest);
  }

  /** `email.split('@')[1]`, written by the template (`undefined` when there is no `@`). */
  function Domain(email: string): (r: string)
    ensures '@' !in email ==> r == Undefined
  {
    if '@' !in email then SplitWithoutSeparator(email, '@'); Undefined
    else
      var fields := Split(email, '@');
      if |fields| > 1 then fields[1] else Undefined
  }

  /** The domain of `local@domain...` is the text between the first `@` and the next one (or the end). */
  lemma DomainOfAddress(local: string, domain: string, rest: string)
    requires '@' !in local && '@' !in domain
    requires rest == [] || rest[0] == '@'
    ensures Domain(local + "@" + domain + rest) == domain
  {
    var email := local + "@" + domain + rest;
    assert email == local + ['@'] + domain + rest;
    SplitSecondField(local, '@', domain, rest);
    assert email[|local|] == '@';
  }

  /** `email[0]`, written by the template (`undefined` for the empty string). */
  function FirstCharacter(email: string): (r: string)
    ensures email != [] ==> r == [email[0]]
    ensures email == [] ==> r == Undefined
  {
    if email == [] then Undefined else [email[0]]
  }

  /**
   * `***` then the last three characters of the name; the first character of the email,
   * `***@` and its domain; `XXX-XXX-` then the last four digits of the phone number.
   */
  function AnonymizeData(name: string, email: string, phone: string): (r: Anonymized)
    ensures r.name == "***" + name[|name| - Min(3, |name|)..]
    ensures r.phone == "XXX-XXX-" + phone[|phone| - Min(4, |phone|)..]
    ensures '@' !in email ==> r.email == FirstCharacter(email) + "***@" + Undefined
  {
    Anonymized(
      "***" + SliceLast(name, 3),
      FirstCharacter(email) + "***@" + Domain(email),
      "XXX-XXX-" + SliceLast(phone, 4))
  }

  /**
   * The masked name and phone keep at most the last three and four characters, and
   * the masked address of `local@domain...` keeps only its first character (the `@`
   * itself when `local` is empty) and the text between the first `@` and the next one.
   */
  lemma AnonymizeDataReveals(name: string, local: string, domain: string, rest: string, phone: string)
    requires '@' !in local && '@' !in domain
    requires rest == [] || rest[0] == '@'
    ensures AnonymizeData(name, local + "@" + domain + rest, phone).email == [(local + "@")[0]] + "***@" + domain
    ensures |AnonymizeData(name, local + "@" + domain + rest, phone).name| == 3 + Min(3, |name|)
    ensures |AnonymizeData(name, local + "@" + domain + rest, phone).phone| == 8 + Min(4, |phone|)
  {
    DomainOfAddress(local, domain, rest);
  }

  /** An address without `@` loses its domain: the template writes `undefined` after `***@`. */
  lemma AnonymizeDataWithoutAt(name: string, email: string, phone: string)
    requires email != [] && '@' !in email
    ensures AnonymizeData(name, email, phone).email == [email[0]] + "***@undefined"
  {
  }

}

/**
 * The two e-mail address shapes the site checks.
 *
 * The contact-form validator of the enhanced script accepts a local part of
 * RFC 5322 "atext" characters and dots, an '@', and a domain of one or more
 * dot-separated labels of 1 to 63 letters, digits and hyphens that start and
 * end with a letter or digit (js/main-backup.js:1514-1525). A dot in the
 * domain is not required.
 *
 * The basic validator (js/main.js:314-320) accepts anything of the form
 * a@b.c where a, b and c are non-empty and hold neither whitespace nor '@'.
 *
 * Each shape is written twice: as a ghost predicate that follows the
 * regular expression (a concatenation of pieces), and as a computable
 * predicate that scans for the '@' and splits the domain. The lemmas prove
 * the two agree on every string.
 */
module Email {
  import opened Text

  // ---------------------------------------------------------------------
  // Label-based address (enhanced validator)
  // ---------------------------------------------------------------------

  /** `[a-zA-Z0-9.!#$%&'*+/=?^_`{|}~-]` */
  predicate IsLocalChar(c: char) {
    IsAsciiAlnum(c) || c in ".!#$%&'*+/=?^_`{|}~-"
  }

  /** `[a-zA-Z0-9-]` */
  predicate IsLabelChar(c: char) {
    IsAsciiAlnum(c) || c == '-'
  }

  predicate IsLocalPart(s: string) {
    |s| >= 1 && forall i :: 0 <= i < |s| ==> IsLocalChar(s[i])
  }

  /** `[a-zA-Z0-9](?:[a-zA-Z0-9-]{0,61}[a-zA-Z0-9])?` */
  predicate IsLabel(l: string) {
    && 1 <= |l| <= 63
    && IsAsciiAlnum(l[0]) && IsAsciiAlnum(l[|l| - 1])
    && forall i :: 0 <= i < |l| ==> IsLabelChar(l[i])
  }

  predicate AllLabels(ls: seq<string>) {
    forall j :: 0 <= j < |ls| ==> IsLabel(ls[j])
  }

  /** The whole regular expression, anchored: local part, '@', label (. label)*. */
  ghost predicate MatchesLabelAddress(s: string) {
    exists local: string, labels: seq<string> ::
      && IsLocalPart(local) && |labels| >= 1 && AllLabels(labels)
      && s == local + "@" + Join(labels, '.')
  }

  /** The check as a scan: the first '@' ends the local part, the rest splits on '.'. */
  predicate IsLabelAddress(s: string) {
    && '@' in s
    && var at := IndexOf(s, '@');
    && IsLocalPart(s[..at])
    && AllLabels(Split(s[at + 1..], '.'))
  }

  lemma {:induction false} LabelsHaveNoDots(ls: seq<string>)
    requires AllLabels(ls)
    ensures forall j :: 0 <= j < |ls| ==> '.' !in ls[j]
  {
    forall j, k | 0 <= j < |ls| && 0 <= k < |ls[j]| ensures ls[j][k] != '.' {
      assert IsLabelChar(ls[j][k]);
    }
  }

  /** A local part never holds the '@'. */
  lemma {:induction false} LocalPartHasNoAt(local: string)
    requires IsLocalPart(local)
    ensures '@' !in local
  {
    forall k | 0 <= k < |local| ensures local[k] != '@' {
      assert IsLocalChar(local[k]);
    }
  }

  /** An address assembled from the pieces of the expression passes the scan. */
  lemma {:induction false} LabelPiecesScanned(local: string, labels: seq<string>)
    requires IsLocalPart(local) && |labels| >= 1 && AllLabels(labels)
    ensures IsLabelAddress(local + "@" + Join(labels, '.'))
  {
    var s := local + "@" + Join(labels, '.');
    LocalPartHasNoAt(local);
    assert s[|local|] == '@' && s[..|local|] == local;
    assert IndexOf(s, '@') == |local|;
    assert s[|local| + 1..] == Join(labels, '.');
    LabelsHaveNoDots(labels);
    SplitJoin(labels, '.');
  }

  /** The scan accepts exactly the strings the regular expression matches. */
  lemma {:induction false} LabelAddressAgrees(s: string)
    ensures IsLabelAddress(s) <==> MatchesLabelAddress(s)
  {
    if IsLabelAddress(s) {
      var at := IndexOf(s, '@');
      var labels := Split(s[at + 1..], '.');
      JoinSplit(s[at + 1..], '.');
      assert s == s[..at] + "@" + Join(labels, '.');
    }
    if MatchesLabelAddress(s) {
      var local: string, labels: seq<string> :|
        && IsLocalPart(local) && |labels| >= 1 && AllLabels(labels)
        && s == local + "@" + Join(labels, '.');
      LabelPiecesScanned(local, labels);
    }
  }

  /** A domain of a single label is accepted: the expression does not require a dot. */
  lemma {:induction false} SingleLabelDomainAccepted(local: string, host: string)
    requires IsLocalPart(local) && IsLabel(host)
    ensures IsLabelAddress(local + "@" + host)
  {
    assert Join([host], '.') == host;
    assert MatchesLabelAddress(local + "@" + Join([host], '.'));
    LabelAddressAgrees(local + "@" + host);
  }

  // ---------------------------------------------------------------------
  // Basic address (js/main.js)
  // ---------------------------------------------------------------------

  /** `[^\s@]` */
  predicate IsPlainChar(c: char) {
    !IsWhitespace(c) && c != '@'
  }

  /** `[^\s@]+` */
  predicate IsPlainRun(s: string) {
    |s| >= 1 && forall i :: 0 <= i < |s| ==> IsPlainChar(s[i])
  }

  /** `^[^\s@]+@[^\s@]+\.[^\s@]+$` as a concatenation of its pieces. */
  ghost predicate MatchesBasicAddress(s: string) {
    exists a: string, b: string, c: string ::
      IsPlainRun(a) && IsPlainRun(b) && IsPlainRun(c) && s == a + "@" + b + "." + c
  }

  /** A '.' that is neither the first nor the last character of `d`. */
  predicate HasInnerDot(d: string) {
    |d| >= 3 && '.' in d[1..|d| - 1]
  }

  /** The check as a scan: the first '@' splits the address; the domain needs an inner dot. */
  predicate IsBasicAddress(s: string) {
    && '@' in s
    && var at := IndexOf(s, '@');
    && IsPlainRun(s[..at])
    && IsPlainRun(s[at + 1..])
    && HasInnerDot(s[at + 1..])
  }

  /** The scan accepts exactly the strings the regular expression matches. */
  lemma {:induction false} BasicAddressAgrees(s: string)
    ensures IsBasicAddress(s) <==> MatchesBasicAddress(s)
  {
    if IsBasicAddress(s) {
      BasicAddressMatches(s);
    }
    if MatchesBasicAddress(s) {
      var a: string, b: string, c: string :|
        IsPlainRun(a) && IsPlainRun(b) && IsPlainRun(c) && s == a + "@" + b + "." + c;
      BasicPiecesAccepted(a, b, c);
    }
  }

  /** Both sides of a character inside a run are runs. */
  lemma {:induction false} PlainRunSplit(d: string, dot: nat)
    requires IsPlainRun(d) && 0 < dot < |d| - 1
    ensures IsPlainRun(d[..dot]) && IsPlainRun(d[dot + 1..])
  {
    var b, c := d[..dot], d[dot + 1..];
    forall i | 0 <= i < |b| ensures IsPlainChar(b[i]) { assert b[i] == d[i]; }
    forall i | 0 <= i < |c| ensures IsPlainChar(c[i]) { assert c[i] == d[dot + 1 + i]; }
  }

  /** The position of an inner dot. */
  lemma {:induction false} InnerDotAt(d: string) returns (dot: nat)
    requires HasInnerDot(d)
    ensures 0 < dot < |d| - 1 && d[dot] == '.'
  {
    var inner := d[1..|d| - 1];
    var k :| 0 <= k < |inner| && inner[k] == '.';
    dot := k + 1;
  }

  lemma {:induction false} BasicAddressMatches(s: string)
    requires IsBasicAddress(s)
    ensures MatchesBasicAddress(s)
  {
    var at := IndexOf(s, '@');
    var d := s[at + 1..];
    var dot := InnerDotAt(d);
    var a, b, c := s[..at], d[..dot], d[dot + 1..];
    PlainRunSplit(d, dot);
    assert s == a + "@" + d;
    assert d == b + "." + c;
    assert IsPlainRun(a) && IsPlainRun(b) && IsPlainRun(c) && s == a + "@" + b + "." + c;
  }

  lemma {:induction false} BasicPiecesAccepted(a: string, b: string, c: string)
    requires IsPlainRun(a) && IsPlainRun(b) && IsPlainRun(c)
    ensures IsBasicAddress(a + "@" + b + "." + c)
  {
    var s := a + "@" + b + "." + c;
    assert '@' !in a by {
      forall k | 0 <= k < |a| ensures a[k] != '@' {
        assert IsPlainChar(a[k]);
      }
    }
    assert s[|a|] == '@' && s[..|a|] == a;
    assert IndexOf(s, '@') == |a|;
    var d := s[|a| + 1..];
    assert d == b + "." + c;
    assert d[1..|d| - 1][|b| - 1] == '.';
    forall i | 0 <= i < |d| ensures IsPlainChar(d[i]) {
      if i < |b| { assert d[i] == b[i]; }
      else if i > |b| { assert d[i] == c[i - |b| - 1]; }
    }
  }

  /** An accepted basic address has no whitespace and exactly one '@'. */
  lemma {:induction false} BasicAddressHasOneAt(s: string)
    requires IsBasicAddress(s)
    ensures forall i :: 0 <= i < |s| ==> !IsWhitespace(s[i])
    ensures forall i :: 0 <= i < |s| && s[i] == '@' ==> i == IndexOf(s, '@')
  {
    var at := IndexOf(s, '@');
    forall i | 0 <= i < |s| ensures !IsWhitespace(s[i]) && (s[i] == '@' ==> i == at) {
      if i < at { assert s[i] == s[..at][i]; }
      else if i > at { assert s[i] == s[at + 1..][i - at - 1]; }
    }
  }
}

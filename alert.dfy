/** Composition of the alert e-mail (src/pitherm/alert.py): the recipient
    list built from SMTP_RECIPIENT and SMTP_CC, the subject line and the Cc
    header. Opening the SMTP session and sending are not part of this model. */
module Alert {
  import opened Builtins

  const HighSubject := "ALERT: High temperature"
  const LowSubject := "ALERT: Low temperature"

  /** `[e.strip() for e in SMTP_CC.split(",")] if SMTP_CC else []`: one entry
      per comma-separated segment, in order, each stripped; nothing for an
      unset or empty SMTP_CC */
  function CcList(smtpCc: Option<string>): (cc: seq<string>)
    ensures smtpCc == None || smtpCc == Some("") ==> cc == []
    ensures smtpCc.Some? && smtpCc.value != "" ==>
      && |cc| == multiset(smtpCc.value)[','] + 1
      && forall i :: 0 <= i < |cc| ==> cc[i] == Strip(Split(smtpCc.value, ',')[i])
    ensures forall e <- cc :: Trimmed(e)
  {
    if smtpCc.None? || smtpCc.value == "" then []
    else
      var parts := Split(smtpCc.value, ',');
      seq(|parts|, i requires 0 <= i < |parts| => Strip(parts[i]))
  }

  /** What `build_recipients` returns: the To address, the Cc entries, and
      the envelope list handed to `sendmail` */
  datatype Recipients = Recipients(primaryTo: string, ccList: seq<string>, all: seq<string>)

  /** `build_recipients(primary)`: the envelope is the primary address
      followed by every Cc entry */
  function BuildRecipients(primary: string, smtpCc: Option<string>): (r: Recipients)
    ensures r.primaryTo == primary && r.ccList == CcList(smtpCc)
    ensures |r.all| == |r.ccList| + 1
    ensures r.all[0] == primary && r.all[1..] == r.ccList
  {
    var cc := CcList(smtpCc);
    Recipients(primary, cc, [primary] + cc)
  }

  /** The subject line of `send_email_alert` for its `alert_type` argument */
  function Subject(alertType: string): (s: string)
    ensures s == HighSubject <==> alertType == "high"
    ensures s == LowSubject <==> alertType != "high"
  {
    if alertType == "high" then HighSubject else LowSubject
  }

  /** The Cc header: present only for a non-empty Cc list, the entries joined by ", " */
  function CcHeader(cc: seq<string>): (h: Option<string>)
    ensures h.None? <==> cc == []
    ensures h.Some? ==> h.value == Join(cc, ", ")
  {
    if cc == [] then None else Some(Join(cc, ", "))
  }

  /** The headers and envelope of one alert e-mail */
  datatype Message = Message(from: string, to: string, cc: Option<string>, subject: string, envelope: seq<string>)

  /** The message `send_email_alert` builds before opening the SMTP session */
  function AlertMessage(sender: string, primary: string, smtpCc: Option<string>, alertType: string): (m: Message)
    ensures m.from == sender && m.to == primary
    ensures m.envelope == [primary] + CcList(smtpCc)
    ensures m.cc.Some? <==> CcList(smtpCc) != []
    ensures (m.subject == HighSubject) == (alertType == "high")
  {
    var r := BuildRecipients(primary, smtpCc);
    Message(sender, r.primaryTo, CcHeader(r.ccList), Subject(alertType), r.all)
  }

  /** Every element but the first with one space in front */
  function Indented(cc: seq<string>): (r: seq<string>)
    ensures |r| == |cc|
  {
    seq(|cc|, i requires 0 <= i < |cc| => " " + cc[i])
  }

  lemma JoinPrefixFirst(pre: string, x: string, rest: seq<string>, sep: string)
    ensures Join([pre + x] + rest, sep) == pre + Join([x] + rest, sep)
  {
    if rest != [] {
      assert ([pre + x] + rest)[1..] == rest == ([x] + rest)[1..];
    }
  }

  /** Joining with ", " is joining with "," after indenting all entries but the first */
  lemma {:induction false} JoinCommaSpace(cc: seq<string>)
    requires |cc| >= 1
    ensures Join(cc, ", ") == Join([cc[0]] + Indented(cc[1..]), ",")
    decreases |cc|
  {
    if |cc| > 1 {
      var tail := cc[1..];
      JoinCommaSpace(tail);
      assert Indented(tail) == [" " + tail[0]] + Indented(tail[1..]);
      JoinPrefixFirst(" ", tail[0], Indented(tail[1..]), ",");
      assert ([cc[0]] + Indented(tail))[1..] == Indented(tail);
    }
  }

  /** Indenting keeps every entry free of commas */
  lemma IndentedNoComma(cc: seq<string>)
    requires forall e <- cc :: ',' !in e
    ensures forall p <- Indented(cc) :: ',' !in p
  {
    forall i | 0 <= i < |cc| ensures ',' !in Indented(cc)[i] {
      assert Indented(cc)[i] == " " + cc[i];
    }
  }

  /** The Cc list of a non-empty SMTP_CC is its stripped segments */
  lemma CcListOfSegments(h: string, parts: seq<string>)
    requires h != "" && Split(h, ',') == parts
    ensures CcList(Some(h)) == seq(|parts|, i requires 0 <= i < |parts| => Strip(parts[i]))
  {
  }

  /** Splitting the Cc header at commas gives the entries, all but the first
      with the space that ", " put in front of them */
  lemma CcHeaderSegments(cc: seq<string>)
    requires cc != []
    requires forall e <- cc :: ',' !in e
    ensures Split(Join(cc, ", "), ',') == [cc[0]] + Indented(cc[1..])
  {
    var parts := [cc[0]] + Indented(cc[1..]);
    IndentedNoComma(cc[1..]);
    assert forall p <- parts :: ',' !in p;
    JoinCommaSpace(cc);
    SplitJoin(parts, ',');
  }

  /** Stripping the segments of the Cc header gives back the entries */
  lemma StripSegments(cc: seq<string>)
    requires cc != []
    requires forall e <- cc :: Trimmed(e)
    ensures var parts := [cc[0]] + Indented(cc[1..]);
      seq(|parts|, i requires 0 <= i < |parts| => Strip(parts[i])) == cc
  {
    var parts := [cc[0]] + Indented(cc[1..]);
    var r := seq(|parts|, i requires 0 <= i < |parts| => Strip(parts[i]));
    forall i | 0 <= i < |cc| ensures r[i] == cc[i] {
      if i == 0 {
        StripTrimmed(cc[0]);
      } else {
        assert parts[i] == " " + cc[i];
        StripPrefixSpace(" ", cc[i]);
      }
    }
  }

  /** The Cc header parses back, through `build_recipients`, into the same Cc
      list, for entries with no comma and no surrounding whitespace */
  lemma {:induction false} CcHeaderRoundTrip(cc: seq<string>)
    requires cc != [""]
    requires forall e <- cc :: ',' !in e && Trimmed(e)
    ensures CcList(CcHeader(cc)) == cc
  {
    if cc != [] {
      var h := Join(cc, ", ");
      CcHeaderSegments(cc);
      assert h != "" by {
        if |cc| > 1 { assert h == cc[0] + ", " + Join(cc[1..], ", "); }
      }
      CcListOfSegments(h, [cc[0]] + Indented(cc[1..]));
      StripSegments(cc);
    }
  }
}

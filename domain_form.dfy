/**
 * The CHECK form that setSetting builds from a DomainInfo, and what reading
 * that form back as a page yields.
 *
 * The encoder emits rows of a group until the first falsy primary value
 * (undefined past the end, or ""); the decoder stops at the first absent
 * element. For an aligned record (every record getParams returns is one), the
 * two agree exactly when every primary value is non-empty:
 * RoundTrip proves the "when" half, RoundTripLosesMail and RoundTripLosesHosts
 * the "only when" half.
 */
module DomainForm {
  import opened Wrappers
  import opened Forms
  import opened DomainPage

  const MenuDomain: nat := 300

  /** The field names of the two DNSINFO row groups. */
  const MailFieldNames := {"mx", "prio"}
  const HostFieldNames := {"hostname", "type", "content", "delegateid"}

  /** `DNSINFO[field][i]` */
  function DnsName(field: string, i: nat): string
  {
    IndexedName(Dns, field, i)
  }

  /** `params.x[i]` in JavaScript: undefined past the end of the array. */
  function At(s: seq<string>, i: nat): FormValue
  {
    if i < |s| then Str(s[i]) else Undefined
  }

  /** JavaScript truthiness of a form value. */
  predicate Truthy(v: FormValue)
  {
    match v
    case Str(s) => s != ""
    case Num(n) => n != 0
    case Undefined => false
  }

  /** The number of rows the encoder emits for a primary list: up to its first "" or its end. */
  function PrimaryCount(s: seq<string>): (n: nat)
    ensures n <= |s|
    ensures forall j :: 0 <= j < n ==> s[j] != ""
    ensures n < |s| ==> s[n] == ""
  {
    if s == [] || s[0] == "" then 0 else 1 + PrimaryCount(s[1..])
  }

  /** The fixed part of the CHECK form. */
  function CheckHeader(domainname: string): Form
  {
    map["MENU" := Num(MenuDomain), "JOB" := Str("CHECK"), DomainNameField := Str(domainname)]
  }

  /** form after the mx loop has run n times. */
  function MailFields(form: Form, mx: seq<string>, prio: seq<string>, n: nat): Form
    requires n <= |mx|
  {
    if n == 0 then form
    else MailFields(form, mx, prio, n - 1)[DnsName("mx", n - 1) := Str(mx[n - 1])][DnsName("prio", n - 1) := At(prio, n - 1)]
  }

  /** form after the hostname loop has run n times. */
  function HostFields(form: Form, hostname: seq<string>, recordType: seq<string>, content: seq<string>,
                      delegateid: seq<string>, n: nat): Form
    requires n <= |hostname|
  {
    if n == 0 then form
    else HostFields(form, hostname, recordType, content, delegateid, n - 1)
      [DnsName("hostname", n - 1) := Str(hostname[n - 1])]
      [DnsName("type", n - 1) := At(recordType, n - 1)]
      [DnsName("content", n - 1) := At(content, n - 1)]
      [DnsName("delegateid", n - 1) := At(delegateid, n - 1)]
  }

  /** The CHECK form setSetting posts for info. */
  function CheckForm(info: DomainInfo): Form
  {
    var mail := MailFields(CheckHeader(info.domainname), info.mx, info.prio, PrimaryCount(info.mx));
    HostFields(mail, info.hostname, info.recordType, info.content, info.delegateid, PrimaryCount(info.hostname))
  }

  /** The form building of setSetting: two index loops that add fields in place. */
  method BuildCheckForm(info: DomainInfo) returns (form: Form)
    ensures form == CheckForm(info)
  {
    form := CheckHeader(info.domainname);
    form := AddMailRows(form, info.mx, info.prio);
    form := AddHostRows(form, info.hostname, info.recordType, info.content, info.delegateid);
  }

  /** The mx loop: one mx/prio pair per index, while `mx[i]` is truthy. */
  method AddMailRows(start: Form, mx: seq<string>, prio: seq<string>) returns (form: Form)
    ensures form == MailFields(start, mx, prio, PrimaryCount(mx))
  {
    form := start;
    var i := 0;
    while Truthy(At(mx, i))
      invariant i <= PrimaryCount(mx)
      invariant form == MailFields(start, mx, prio, i)
      decreases |mx| - i
    {
      form := form[DnsName("mx", i) := Str(mx[i])];
      form := form[DnsName("prio", i) := At(prio, i)];
      i := i + 1;
    }
  }

  /** The hostname loop: four fields per index, while `hostname[i]` is truthy. */
  method AddHostRows(start: Form, hostname: seq<string>, recordType: seq<string>, content: seq<string>,
                     delegateid: seq<string>) returns (form: Form)
    ensures form == HostFields(start, hostname, recordType, content, delegateid, PrimaryCount(hostname))
  {
    form := start;
    var i := 0;
    while Truthy(At(hostname, i))
      invariant i <= PrimaryCount(hostname)
      invariant form == HostFields(start, hostname, recordType, content, delegateid, i)
      decreases |hostname| - i
    {
      form := form[DnsName("hostname", i) := Str(hostname[i])];
      form := form[DnsName("type", i) := At(recordType, i)];
      form := form[DnsName("content", i) := At(content, i)];
      form := form[DnsName("delegateid", i) := At(delegateid, i)];
      i := i + 1;
    }
  }

  /** Two DNSINFO row names are equal only for the same field and index. */
  lemma DnsNamesDiffer(f1: string, f2: string, i: nat, j: nat)
    requires f1 in MailFieldNames + HostFieldNames && f2 in MailFieldNames + HostFieldNames
    ensures DnsName(f1, i) == DnsName(f2, j) ==> f1 == f2 && i == j
  {
    if f1 != f2 {
      assert f1[0] != f2[0];
      IndexedNamesDiffer(Dns, f1, f2, i, j);
    } else if i != j {
      IndexedNamesDiffer(Dns, f1, f2, i, j);
    }
  }

  /** No DNSINFO row name is one of the three fixed keys. */
  lemma DnsNameNotHeader(f: string, i: nat)
    requires f in MailFieldNames + HostFieldNames
    ensures DnsName(f, i) !in {"MENU", "JOB", DomainNameField}
  {
    IndexedNameHead(Dns, f, i, 0);
    IndexedNameHead(Dns, f, i, 8);
    IndexedNameHead(Dns, f, i, 9);
    assert DomainNameField[8] == 'd' && DomainNameField[9] == 'o';
  }

  ghost predicate IsMailKey(k: string, n: nat)
  {
    exists j: nat :: j < n && (k == DnsName("mx", j) || k == DnsName("prio", j))
  }

  ghost predicate IsHostKey(k: string, n: nat)
  {
    exists j: nat :: j < n &&
      (k == DnsName("hostname", j) || k == DnsName("type", j) || k == DnsName("content", j) || k == DnsName("delegateid", j))
  }

  /** The name of row i of a group is a key of that group's first n rows iff i < n, and never of the other group's. */
  lemma RowKeyIndex(f: string, i: nat, n: nat)
    requires f in MailFieldNames + HostFieldNames
    ensures f in MailFieldNames ==> (IsMailKey(DnsName(f, i), n) <==> i < n)
    ensures f in HostFieldNames ==> (IsHostKey(DnsName(f, i), n) <==> i < n)
    ensures f in MailFieldNames ==> !IsHostKey(DnsName(f, i), n)
    ensures f in HostFieldNames ==> !IsMailKey(DnsName(f, i), n)
  {
    var k := DnsName(f, i);
    if IsMailKey(k, n) {
      var j: nat :| j < n && (k == DnsName("mx", j) || k == DnsName("prio", j));
      DnsNamesDiffer(f, "mx", i, j);
      DnsNamesDiffer(f, "prio", i, j);
    }
    if IsHostKey(k, n) {
      var j: nat :| j < n && (k == DnsName("hostname", j) || k == DnsName("type", j)
                              || k == DnsName("content", j) || k == DnsName("delegateid", j));
      DnsNamesDiffer(f, "hostname", i, j);
      DnsNamesDiffer(f, "type", i, j);
      DnsNamesDiffer(f, "content", i, j);
      DnsNamesDiffer(f, "delegateid", i, j);
    }
  }

  /** The mx loop adds exactly the mx/prio names of its rows. */
  lemma {:induction false} MailFieldsKeys(form: Form, mx: seq<string>, prio: seq<string>, n: nat)
    requires n <= |mx|
    ensures forall k :: k in MailFields(form, mx, prio, n) <==> k in form || IsMailKey(k, n)
  {
    if n > 0 {
      MailFieldsKeys(form, mx, prio, n - 1);
      forall k | IsMailKey(k, n) && !IsMailKey(k, n - 1)
        ensures k == DnsName("mx", n - 1) || k == DnsName("prio", n - 1)
      {
        var j: nat :| j < n && (k == DnsName("mx", j) || k == DnsName("prio", j));
      }
    }
  }

  /** Two updates under two distinct keys keep every other entry. */
  lemma UpdateTwo(r: Form, a: string, b: string, va: FormValue, vb: FormValue)
    requires a != b
    ensures var r' := r[a := va][b := vb];
      && a in r' && b in r' && r'[a] == va && r'[b] == vb
      && forall k :: k in r && k != a && k != b ==> k in r' && r'[k] == r[k]
  {
  }

  /** Row j of the mail group holds mx[j] and prio[j]. */
  ghost predicate MailRowHolds(r: Form, mx: seq<string>, prio: seq<string>, j: nat)
    requires j < |mx|
  {
    && DnsName("mx", j) in r && DnsName("prio", j) in r
    && r[DnsName("mx", j)] == Str(mx[j])
    && r[DnsName("prio", j)] == At(prio, j)
  }

  /** The mx loop overwrites nothing it did not add, and row j holds mx[j] and prio[j]. */
  lemma {:induction false} MailFieldsValues(form: Form, mx: seq<string>, prio: seq<string>, n: nat)
    requires n <= |mx|
    requires forall j: nat :: DnsName("mx", j) !in form && DnsName("prio", j) !in form
    ensures forall k :: k in form ==> k in MailFields(form, mx, prio, n) && MailFields(form, mx, prio, n)[k] == form[k]
    ensures forall j: nat :: j < n ==> MailRowHolds(MailFields(form, mx, prio, n), mx, prio, j)
  {
    if n > 0 {
      var last := n - 1;
      MailFieldsValues(form, mx, prio, last);
      var prev := MailFields(form, mx, prio, last);
      var m, p := DnsName("mx", last), DnsName("prio", last);
      DnsNamesDiffer("mx", "prio", last, last);
      UpdateTwo(prev, m, p, Str(mx[last]), At(prio, last));
      assert MailFields(form, mx, prio, n) == prev[m := Str(mx[last])][p := At(prio, last)];
      forall j: nat | j < last
        ensures MailRowHolds(MailFields(form, mx, prio, n), mx, prio, j)
      {
        MailRowKept(prev, mx, prio, j, last);
      }
    }
  }

  /** Adding row last keeps an earlier mail row. */
  lemma MailRowKept(prev: Form, mx: seq<string>, prio: seq<string>, j: nat, last: nat)
    requires j < last < |mx|
    requires MailRowHolds(prev, mx, prio, j)
    ensures MailRowHolds(prev[DnsName("mx", last) := Str(mx[last])][DnsName("prio", last) := At(prio, last)], mx, prio, j)
  {
    DnsNamesDiffer("mx", "mx", j, last);
    DnsNamesDiffer("mx", "prio", j, last);
    DnsNamesDiffer("prio", "mx", j, last);
    DnsNamesDiffer("prio", "prio", j, last);
  }

  /** The hostname loop adds exactly the four names of its rows. */
  lemma {:induction false} HostFieldsKeys(form: Form, hostname: seq<string>, recordType: seq<string>,
                                         content: seq<string>, delegateid: seq<string>, n: nat)
    requires n <= |hostname|
    ensures forall k :: k in HostFields(form, hostname, recordType, content, delegateid, n) <==> k in form || IsHostKey(k, n)
  {
    if n > 0 {
      HostFieldsKeys(form, hostname, recordType, content, delegateid, n - 1);
      forall k | IsHostKey(k, n) && !IsHostKey(k, n - 1)
        ensures || k == DnsName("hostname", n - 1) || k == DnsName("type", n - 1)
                || k == DnsName("content", n - 1) || k == DnsName("delegateid", n - 1)
      {
        var j: nat :| j < n && (k == DnsName("hostname", j) || k == DnsName("type", j)
                                || k == DnsName("content", j) || k == DnsName("delegateid", j));
      }
    }
  }

  /** Four updates under four distinct keys keep every other entry. */
  lemma UpdateFour(r: Form, h: string, t: string, c: string, d: string,
                   vh: FormValue, vt: FormValue, vc: FormValue, vd: FormValue)
    requires h != t && h != c && h != d && t != c && t != d && c != d
    ensures var r' := r[h := vh][t := vt][c := vc][d := vd];
      && h in r' && t in r' && c in r' && d in r'
      && r'[h] == vh && r'[t] == vt && r'[c] == vc && r'[d] == vd
      && forall k :: k in r && k != h && k != t && k != c && k != d ==> k in r' && r'[k] == r[k]
  {
  }

  /** Row j of the host group holds the four values of index j. */
  ghost predicate HostRowHolds(r: Form, hostname: seq<string>, recordType: seq<string>,
                               content: seq<string>, delegateid: seq<string>, j: nat)
    requires j < |hostname|
  {
    && DnsName("hostname", j) in r && DnsName("type", j) in r && DnsName("content", j) in r && DnsName("delegateid", j) in r
    && r[DnsName("hostname", j)] == Str(hostname[j])
    && r[DnsName("type", j)] == At(recordType, j)
    && r[DnsName("content", j)] == At(content, j)
    && r[DnsName("delegateid", j)] == At(delegateid, j)
  }

  /** The hostname loop overwrites nothing it did not add, and row j holds the four values of index j. */
  lemma {:induction false} HostFieldsValues(form: Form, hostname: seq<string>, recordType: seq<string>,
                                           content: seq<string>, delegateid: seq<string>, n: nat)
    requires n <= |hostname|
    requires forall j: nat :: && DnsName("hostname", j) !in form && DnsName("type", j) !in form
                              && DnsName("content", j) !in form && DnsName("delegateid", j) !in form
    ensures forall k :: k in form ==>
      k in HostFields(form, hostname, recordType, content, delegateid, n)
      && HostFields(form, hostname, recordType, content, delegateid, n)[k] == form[k]
    ensures forall j: nat :: j < n ==>
      HostRowHolds(HostFields(form, hostname, recordType, content, delegateid, n), hostname, recordType, content, delegateid, j)
  {
    if n > 0 {
      var last := n - 1;
      HostFieldsValues(form, hostname, recordType, content, delegateid, last);
      var prev := HostFields(form, hostname, recordType, content, delegateid, last);
      HostStep(form, prev, hostname, recordType, content, delegateid, last);
    }
  }

  /** One pass of the hostname loop keeps the fields before it and every earlier row, and adds row last. */
  lemma HostStep(form: Form, prev: Form, hostname: seq<string>, recordType: seq<string>,
                 content: seq<string>, delegateid: seq<string>, last: nat)
    requires last < |hostname|
    requires && DnsName("hostname", last) !in form && DnsName("type", last) !in form
             && DnsName("content", last) !in form && DnsName("delegateid", last) !in form
    requires forall k :: k in form ==> k in prev && prev[k] == form[k]
    requires forall j: nat :: j < last ==> HostRowHolds(prev, hostname, recordType, content, delegateid, j)
    ensures var r := prev[DnsName("hostname", last) := Str(hostname[last])][DnsName("type", last) := At(recordType, last)]
                         [DnsName("content", last) := At(content, last)][DnsName("delegateid", last) := At(delegateid, last)];
      && (forall k :: k in form ==> k in r && r[k] == form[k])
      && forall j: nat :: j <= last ==> HostRowHolds(r, hostname, recordType, content, delegateid, j)
  {
    var h, t, c, d := DnsName("hostname", last), DnsName("type", last), DnsName("content", last), DnsName("delegateid", last);
    HostNamesDistinct(last);
    UpdateFour(prev, h, t, c, d, Str(hostname[last]), At(recordType, last), At(content, last), At(delegateid, last));
    var r := prev[h := Str(hostname[last])][t := At(recordType, last)][c := At(content, last)][d := At(delegateid, last)];
    assert HostRowHolds(r, hostname, recordType, content, delegateid, last);
    forall j: nat | j < last
      ensures HostRowHolds(r, hostname, recordType, content, delegateid, j)
    {
      HostRowKept(prev, hostname, recordType, content, delegateid, j, last);
    }
  }

  /** The four names of one host row are pairwise distinct. */
  lemma HostNamesDistinct(i: nat)
    ensures DnsName("hostname", i) != DnsName("type", i) && DnsName("hostname", i) != DnsName("content", i)
    ensures DnsName("hostname", i) != DnsName("delegateid", i) && DnsName("type", i) != DnsName("content", i)
    ensures DnsName("type", i) != DnsName("delegateid", i) && DnsName("content", i) != DnsName("delegateid", i)
  {
    DnsNamesDiffer("hostname", "type", i, i);
    DnsNamesDiffer("hostname", "content", i, i);
    DnsNamesDiffer("hostname", "delegateid", i, i);
    DnsNamesDiffer("type", "content", i, i);
    DnsNamesDiffer("type", "delegateid", i, i);
    DnsNamesDiffer("content", "delegateid", i, i);
  }

  /** Adding row last keeps an earlier host row. */
  lemma HostRowKept(prev: Form, hostname: seq<string>, recordType: seq<string>,
                    content: seq<string>, delegateid: seq<string>, j: nat, last: nat)
    requires j < last < |hostname|
    requires HostRowHolds(prev, hostname, recordType, content, delegateid, j)
    ensures HostRowHolds(prev[DnsName("hostname", last) := Str(hostname[last])][DnsName("type", last) := At(recordType, last)]
                             [DnsName("content", last) := At(content, last)][DnsName("delegateid", last) := At(delegateid, last)],
                         hostname, recordType, content, delegateid, j)
  {
    var names := ["hostname", "type", "content", "delegateid"];
    forall a, b | 0 <= a < 4 && 0 <= b < 4
      ensures DnsName(names[a], j) != DnsName(names[b], last)
    {
      DnsNamesDiffer(names[a], names[b], j, last);
    }
    assert DnsName(names[0], j) == DnsName("hostname", j) && DnsName(names[1], j) == DnsName("type", j);
    assert DnsName(names[2], j) == DnsName("content", j) && DnsName(names[3], j) == DnsName("delegateid", j);
    assert DnsName(names[0], last) == DnsName("hostname", last) && DnsName(names[1], last) == DnsName("type", last);
    assert DnsName(names[2], last) == DnsName("content", last) && DnsName(names[3], last) == DnsName("delegateid", last);
  }

  /** The mx loop starts from a form holding no mx or prio name. */
  lemma MailNamesNotInHeader(domainname: string)
    ensures forall j: nat :: DnsName("mx", j) !in CheckHeader(domainname) && DnsName("prio", j) !in CheckHeader(domainname)
  {
    forall j: nat
      ensures DnsName("mx", j) !in CheckHeader(domainname) && DnsName("prio", j) !in CheckHeader(domainname)
    {
      DnsNameNotHeader("mx", j);
      DnsNameNotHeader("prio", j);
    }
  }

  /** The hostname loop starts from a form holding none of its four names. */
  lemma HostNamesNotInMail(info: DomainInfo)
    ensures var mail := MailFields(CheckHeader(info.domainname), info.mx, info.prio, PrimaryCount(info.mx));
      forall j: nat :: && DnsName("hostname", j) !in mail && DnsName("type", j) !in mail
                       && DnsName("content", j) !in mail && DnsName("delegateid", j) !in mail
  {
    forall j: nat
      ensures var mail := MailFields(CheckHeader(info.domainname), info.mx, info.prio, PrimaryCount(info.mx));
        && DnsName("hostname", j) !in mail && DnsName("type", j) !in mail
        && DnsName("content", j) !in mail && DnsName("delegateid", j) !in mail
    {
      HostNameNotInMail(info, "hostname", j);
      HostNameNotInMail(info, "type", j);
      HostNameNotInMail(info, "content", j);
      HostNameNotInMail(info, "delegateid", j);
    }
  }

  /** A host field name is neither a header key nor a mail key. */
  lemma HostNameNotInMail(info: DomainInfo, f: string, j: nat)
    requires f in HostFieldNames
    ensures DnsName(f, j) !in MailFields(CheckHeader(info.domainname), info.mx, info.prio, PrimaryCount(info.mx))
  {
    var nm := PrimaryCount(info.mx);
    MailFieldsKeys(CheckHeader(info.domainname), info.mx, info.prio, nm);
    DnsNameNotHeader(f, j);
    RowKeyIndex(f, j, nm);
  }

  /**
   * The CHECK form has exactly these keys: MENU, JOB, the domain name, the
   * mx/prio names of the rows before the first falsy mx and the four host
   * names of the rows before the first falsy hostname.
   */
  lemma CheckFormKeys(info: DomainInfo)
    ensures forall k :: k in CheckForm(info) <==>
      || k in {"MENU", "JOB", DomainNameField}
      || IsMailKey(k, PrimaryCount(info.mx))
      || IsHostKey(k, PrimaryCount(info.hostname))
  {
    var header := CheckHeader(info.domainname);
    var nm, nh := PrimaryCount(info.mx), PrimaryCount(info.hostname);
    MailFieldsKeys(header, info.mx, info.prio, nm);
    HostFieldsKeys(MailFields(header, info.mx, info.prio, nm), info.hostname, info.recordType, info.content, info.delegateid, nh);
  }

  /** The values the CHECK form carries: MENU=300, JOB="CHECK", the domain name, and row j's values at index j. */
  lemma CheckFormValues(info: DomainInfo)
    ensures var f := CheckForm(info);
      && "MENU" in f && f["MENU"] == Num(MenuDomain)
      && "JOB" in f && f["JOB"] == Str("CHECK")
      && DomainNameField in f && f[DomainNameField] == Str(info.domainname)
    ensures forall j: nat :: j < PrimaryCount(info.mx) ==> MailRowHolds(CheckForm(info), info.mx, info.prio, j)
    ensures forall j: nat :: j < PrimaryCount(info.hostname) ==>
      HostRowHolds(CheckForm(info), info.hostname, info.recordType, info.content, info.delegateid, j)
  {
    var header := CheckHeader(info.domainname);
    var mail := MailFields(header, info.mx, info.prio, PrimaryCount(info.mx));
    MailNamesNotInHeader(info.domainname);
    MailFieldsValues(header, info.mx, info.prio, PrimaryCount(info.mx));
    HostNamesNotInMail(info);
    HostFieldsValues(mail, info.hostname, info.recordType, info.content, info.delegateid, PrimaryCount(info.hostname));
    CheckFormKeepsMail(info, mail);
    CheckFormKeepsHeader(info, header, mail);
  }

  /** The header survives both loops. */
  lemma CheckFormKeepsHeader(info: DomainInfo, header: Form, mail: Form)
    requires header == CheckHeader(info.domainname)
    requires forall k :: k in header ==> k in mail && mail[k] == header[k]
    requires forall k :: k in mail ==> k in CheckForm(info) && CheckForm(info)[k] == mail[k]
    ensures var f := CheckForm(info);
      && "MENU" in f && f["MENU"] == Num(MenuDomain)
      && "JOB" in f && f["JOB"] == Str("CHECK")
      && DomainNameField in f && f[DomainNameField] == Str(info.domainname)
  {
    assert "MENU" in header && "JOB" in header && DomainNameField in header;
  }

  /** The mail rows survive the hostname loop. */
  lemma CheckFormKeepsMail(info: DomainInfo, mail: Form)
    requires forall j: nat :: j < PrimaryCount(info.mx) ==> MailRowHolds(mail, info.mx, info.prio, j)
    requires forall k :: k in mail ==> k in CheckForm(info) && CheckForm(info)[k] == mail[k]
    ensures forall j: nat :: j < PrimaryCount(info.mx) ==> MailRowHolds(CheckForm(info), info.mx, info.prio, j)
  {
    forall j: nat | j < PrimaryCount(info.mx)
      ensures MailRowHolds(CheckForm(info), info.mx, info.prio, j)
    {
      assert MailRowHolds(mail, info.mx, info.prio, j);
    }
  }

  /**
   * Row i of a group is sent iff every primary value before it and at it is
   * non-empty: rows from the first falsy primary on are dropped.
   */
  lemma CheckFormRows(info: DomainInfo, f: string, i: nat)
    requires f in MailFieldNames + HostFieldNames
    ensures f in MailFieldNames ==> (DnsName(f, i) in CheckForm(info) <==> i < PrimaryCount(info.mx))
    ensures f in HostFieldNames ==> (DnsName(f, i) in CheckForm(info) <==> i < PrimaryCount(info.hostname))
  {
    CheckFormKeys(info);
    DnsNameNotHeader(f, i);
    RowKeyIndex(f, i, PrimaryCount(info.mx));
    RowKeyIndex(f, i, PrimaryCount(info.hostname));
  }

  /** A row read back with an empty mx is not resubmitted, and neither is any row after it. */
  lemma EmptyMxDropsRest(info: DomainInfo, i: nat, j: nat)
    requires i < |info.mx| && info.mx[i] == "" && i <= j
    ensures DnsName("mx", j) !in CheckForm(info) && DnsName("prio", j) !in CheckForm(info)
  {
    CheckFormRows(info, "mx", j);
    CheckFormRows(info, "prio", j);
  }

  /** The informational fields ipV4, ipV6 and update never reach the form. */
  lemma CheckFormIgnoresAddresses(info: DomainInfo, v4: Option<string>, v6: Option<string>, update: Option<string>)
    ensures CheckForm(info.(ipV4 := v4, ipV6 := v6, update := update)) == CheckForm(info)
  {
  }

  /** Reading the mx group back from the CHECK form yields mx and prio when no mx is empty. */
  lemma MailRoundTrip(info: DomainInfo)
    requires |info.prio| == |info.mx|
    requires forall j :: 0 <= j < |info.mx| ==> info.mx[j] != ""
    ensures MailSpec(EchoPage(CheckForm(info))) == Some(MailRows(info.mx, info.prio))
  {
    var f := CheckForm(info);
    var doc := EchoPage(f);
    var n := |info.mx|;
    CheckFormValues(info);
    assert PrimaryCount(info.mx) == n;
    CheckFormRows(info, "mx", n);
    forall j: nat | j < n
      ensures Element(Input, IndexedName(Dns, "mx", j)) in doc && doc[Element(Input, IndexedName(Dns, "mx", j))] == info.mx[j]
      ensures Element(Select, IndexedName(Dns, "prio", j)) in doc && doc[Element(Select, IndexedName(Dns, "prio", j))] == info.prio[j]
    {
      assert MailRowHolds(f, info.mx, info.prio, j);
    }
    assert !Present(doc, Input, Dns, "mx", n);
    ScanStopsAtFirstGap(doc, Dns, "mx", n);
    assert ColumnOf(doc, Input, Dns, "mx", n) == info.mx;
    assert ColumnOf(doc, Select, Dns, "prio", n) == info.prio;
  }

  /** The page echoing the form shows row j of the host group with the record's values. */
  ghost predicate HostRowEchoed(doc: Document, info: DomainInfo, j: nat)
    requires j < |info.hostname| == |info.recordType| == |info.content| == |info.delegateid|
  {
    && Element(Input, IndexedName(Dns, "hostname", j)) in doc
    && Element(Select, IndexedName(Dns, "type", j)) in doc
    && Element(Input, IndexedName(Dns, "content", j)) in doc
    && Element(Select, IndexedName(Dns, "delegateid", j)) in doc
    && doc[Element(Input, IndexedName(Dns, "hostname", j))] == info.hostname[j]
    && doc[Element(Select, IndexedName(Dns, "type", j))] == info.recordType[j]
    && doc[Element(Input, IndexedName(Dns, "content", j))] == info.content[j]
    && doc[Element(Select, IndexedName(Dns, "delegateid", j))] == info.delegateid[j]
  }

  lemma HostRowEcho(info: DomainInfo, j: nat)
    requires j < |info.hostname| == |info.recordType| == |info.content| == |info.delegateid|
    requires forall i :: 0 <= i < |info.hostname| ==> info.hostname[i] != ""
    ensures HostRowEchoed(EchoPage(CheckForm(info)), info, j)
  {
    CheckFormValues(info);
    assert PrimaryCount(info.hostname) == |info.hostname|;
    assert HostRowHolds(CheckForm(info), info.hostname, info.recordType, info.content, info.delegateid, j);
  }

  /** Reading the host group back from the CHECK form yields the four lists when no hostname is empty. */
  lemma HostRoundTrip(info: DomainInfo)
    requires |info.recordType| == |info.content| == |info.delegateid| == |info.hostname|
    requires forall j :: 0 <= j < |info.hostname| ==> info.hostname[j] != ""
    ensures HostSpec(EchoPage(CheckForm(info))) == Some(HostRows(info.hostname, info.recordType, info.content, info.delegateid))
  {
    var doc := EchoPage(CheckForm(info));
    var n := |info.hostname|;
    forall j: nat | j < n
      ensures HostRowEchoed(doc, info, j)
    {
      HostRowEcho(info, j);
    }
    HostColumnsShown(doc, info);
    HostGapShown(info);
    ScanStopsAtFirstGap(doc, Dns, "hostname", n);
  }

  /** The echoed page has no hostname row just past the last one. */
  lemma HostGapShown(info: DomainInfo)
    requires forall j :: 0 <= j < |info.hostname| ==> info.hostname[j] != ""
    ensures !Present(EchoPage(CheckForm(info)), Input, Dns, "hostname", |info.hostname|)
  {
    assert PrimaryCount(info.hostname) == |info.hostname|;
    CheckFormRows(info, "hostname", |info.hostname|);
  }

  lemma HostColumnsShown(doc: Document, info: DomainInfo)
    requires |info.recordType| == |info.content| == |info.delegateid| == |info.hostname|
    requires forall j: nat :: j < |info.hostname| ==> HostRowEchoed(doc, info, j)
    ensures Complete(doc, Input, Dns, "hostname", |info.hostname|)
    ensures Complete(doc, Select, Dns, "type", |info.hostname|)
    ensures Complete(doc, Input, Dns, "content", |info.hostname|)
    ensures Complete(doc, Select, Dns, "delegateid", |info.hostname|)
    ensures ColumnOf(doc, Input, Dns, "hostname", |info.hostname|) == info.hostname
    ensures ColumnOf(doc, Select, Dns, "type", |info.hostname|) == info.recordType
    ensures ColumnOf(doc, Input, Dns, "content", |info.hostname|) == info.content
    ensures ColumnOf(doc, Select, Dns, "delegateid", |info.hostname|) == info.delegateid
  {
    forall j: nat | j < |info.hostname|
      ensures Element(Input, IndexedName(Dns, "hostname", j)) in doc
      ensures Element(Select, IndexedName(Dns, "type", j)) in doc
      ensures Element(Input, IndexedName(Dns, "content", j)) in doc
      ensures Element(Select, IndexedName(Dns, "delegateid", j)) in doc
      ensures doc[Element(Input, IndexedName(Dns, "hostname", j))] == info.hostname[j]
      ensures doc[Element(Select, IndexedName(Dns, "type", j))] == info.recordType[j]
      ensures doc[Element(Input, IndexedName(Dns, "content", j))] == info.content[j]
      ensures doc[Element(Select, IndexedName(Dns, "delegateid", j))] == info.delegateid[j]
    {
      assert HostRowEchoed(doc, info, j);
    }
    ColumnShown(doc, Input, Dns, "hostname", info.hostname);
    ColumnShown(doc, Select, Dns, "type", info.recordType);
    ColumnShown(doc, Input, Dns, "content", info.content);
    ColumnShown(doc, Select, Dns, "delegateid", info.delegateid);
  }

  /**
   * Round trip: when every mx and every hostname is non-empty, reading the
   * CHECK form back by the same names yields the record's domain name and all
   * six lists unchanged; the informational fields come from the page's user info.
   */
  lemma RoundTrip(info: DomainInfo, u: UserInfo)
    requires Aligned(info)
    requires forall j :: 0 <= j < |info.mx| ==> info.mx[j] != ""
    requires forall j :: 0 <= j < |info.hostname| ==> info.hostname[j] != ""
    ensures var a := AddressesOf(u);
      DomainSpec(Page(Some(u), EchoPage(CheckForm(info))))
        == Some(info.(ipV4 := a.ipV4, ipV6 := a.ipV6, update := a.update))
  {
    CheckFormValues(info);
    MailRoundTrip(info);
    HostRoundTrip(info);
  }

  /**
   * The echoed page shows the primary INPUT of every row the form sent and of
   * no other: each scan stops at its group's first falsy primary.
   */
  lemma EchoScanEnds(info: DomainInfo)
    ensures ScanEndsAt(EchoPage(CheckForm(info)), Dns, "mx", PrimaryCount(info.mx))
    ensures ScanEndsAt(EchoPage(CheckForm(info)), Dns, "hostname", PrimaryCount(info.hostname))
    ensures forall j: nat :: Present(EchoPage(CheckForm(info)), Input, Dns, "mx", j) <==> j < PrimaryCount(info.mx)
    ensures forall j: nat :: Present(EchoPage(CheckForm(info)), Input, Dns, "hostname", j) <==> j < PrimaryCount(info.hostname)
  {
    var f := CheckForm(info);
    var doc := EchoPage(f);
    CheckFormValues(info);
    forall j: nat | j < PrimaryCount(info.mx)
      ensures Element(Input, IndexedName(Dns, "mx", j)) in doc
    {
      assert MailRowHolds(f, info.mx, info.prio, j);
    }
    forall j: nat | j < PrimaryCount(info.hostname)
      ensures Element(Input, IndexedName(Dns, "hostname", j)) in doc
    {
      assert HostRowHolds(f, info.hostname, info.recordType, info.content, info.delegateid, j);
    }
    CheckFormRows(info, "mx", PrimaryCount(info.mx));
    CheckFormRows(info, "hostname", PrimaryCount(info.hostname));
    forall j: nat
      ensures Present(doc, Input, Dns, "mx", j) <==> j < PrimaryCount(info.mx)
      ensures Present(doc, Input, Dns, "hostname", j) <==> j < PrimaryCount(info.hostname)
    {
      CheckFormRows(info, "mx", j);
      CheckFormRows(info, "hostname", j);
    }
  }

  /** The echoed page's mx column below the first empty mx is the record's mx list up to there. */
  lemma EchoMailColumn(info: DomainInfo)
    ensures Complete(EchoPage(CheckForm(info)), Input, Dns, "mx", PrimaryCount(info.mx))
    ensures ColumnOf(EchoPage(CheckForm(info)), Input, Dns, "mx", PrimaryCount(info.mx)) == info.mx[..PrimaryCount(info.mx)]
  {
    var f := CheckForm(info);
    var doc := EchoPage(f);
    var col := info.mx[..PrimaryCount(info.mx)];
    CheckFormValues(info);
    forall j: nat | j < |col|
      ensures Element(Input, IndexedName(Dns, "mx", j)) in doc && doc[Element(Input, IndexedName(Dns, "mx", j))] == col[j]
    {
      assert MailRowHolds(f, info.mx, info.prio, j);
    }
    ColumnShown(doc, Input, Dns, "mx", col);
  }

  /** The echoed page's hostname column below the first empty hostname is the record's list up to there. */
  lemma EchoHostColumn(info: DomainInfo)
    ensures Complete(EchoPage(CheckForm(info)), Input, Dns, "hostname", PrimaryCount(info.hostname))
    ensures ColumnOf(EchoPage(CheckForm(info)), Input, Dns, "hostname", PrimaryCount(info.hostname))
      == info.hostname[..PrimaryCount(info.hostname)]
  {
    var f := CheckForm(info);
    var doc := EchoPage(f);
    var col := info.hostname[..PrimaryCount(info.hostname)];
    CheckFormValues(info);
    forall j: nat | j < |col|
      ensures Element(Input, IndexedName(Dns, "hostname", j)) in doc
        && doc[Element(Input, IndexedName(Dns, "hostname", j))] == col[j]
    {
      assert HostRowHolds(f, info.hostname, info.recordType, info.content, info.delegateid, j);
    }
    ColumnShown(doc, Input, Dns, "hostname", col);
  }

  /**
   * The converse of the round trip, for mail exchangers: an empty mx at index
   * i loses that row and every later one, so reading the form back yields at
   * most i rows, exactly those before the first empty mx.
   */
  lemma RoundTripLosesMail(info: DomainInfo, u: UserInfo, i: nat)
    requires i < |info.mx| && info.mx[i] == ""
    ensures var r := DomainSpec(Page(Some(u), EchoPage(CheckForm(info))));
      r.Some? ==> |r.value.mx| == PrimaryCount(info.mx) <= i && |r.value.mx| < |info.mx|
    ensures var r := DomainSpec(Page(Some(u), EchoPage(CheckForm(info))));
      r.Some? ==> r.value.mx == info.mx[..PrimaryCount(info.mx)]
  {
    var page := Page(Some(u), EchoPage(CheckForm(info)));
    EchoScanEnds(info);
    EchoMailColumn(info);
    GapTruncates(page, PrimaryCount(info.mx), PrimaryCount(info.hostname));
  }

  /**
   * The converse of the round trip, for host records: an empty hostname at
   * index i loses rows i onwards, so reading the form back yields exactly the
   * host names before the first empty one.
   */
  lemma RoundTripLosesHosts(info: DomainInfo, u: UserInfo, i: nat)
    requires i < |info.hostname| && info.hostname[i] == ""
    ensures var r := DomainSpec(Page(Some(u), EchoPage(CheckForm(info))));
      r.Some? ==> |r.value.hostname| == PrimaryCount(info.hostname) <= i && |r.value.hostname| < |info.hostname|
    ensures var r := DomainSpec(Page(Some(u), EchoPage(CheckForm(info))));
      r.Some? ==> r.value.hostname == info.hostname[..PrimaryCount(info.hostname)]
  {
    var page := Page(Some(u), EchoPage(CheckForm(info)));
    var n := PrimaryCount(info.hostname);
    EchoScanEnds(info);
    EchoHostColumn(info);
    GapTruncates(page, PrimaryCount(info.mx), n);
    if DomainSpec(page).Some? {
      assert DomainSpec(page).value.hostname == ColumnOf(page.fields, Input, Dns, "hostname", n);
    }
  }
}

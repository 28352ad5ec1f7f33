/** cpplint's `_IncludeState.CheckNextIncludeOrder`: a machine that moves forward through the sections of an
    include block and complains about headers it would have to move backwards for. */
module IncludeOrder {
  import opened Chars

  datatype HeaderType = CSystem | CppSystem | LikelyMine | PossiblyMine | OtherHeader

  /** Sections in their prescribed order. */
  type Section = s: int | 0 <= s <= 4
  const INITIAL: Section := 0
  const MY_H: Section := 1
  const C_SYSTEM: Section := 2
  const CPP_SYSTEM: Section := 3
  const OTHER_H: Section := 4

  function TypeName(h: HeaderType): string {
    match h
    case CSystem => "C system header"
    case CppSystem => "C++ system header"
    case LikelyMine => "header this file implements"
    case PossiblyMine => "header this file may implement"
    case OtherHeader => "other header"
  }

  function SectionName(s: Section): string {
    if s == INITIAL then "... nothing. (This can't be an error.)"
    else if s == MY_H then "a header this file implements"
    else if s == C_SYSTEM then "C system header"
    else if s == CPP_SYSTEM then "C++ system header"
    else "other header"
  }

  /** The section after a header, or None if the header is out of order. */
  function Next(s: Section, h: HeaderType): Option<Section> {
    match h
    case CSystem => if s <= C_SYSTEM then Some(C_SYSTEM) else None
    case CppSystem => if s <= CPP_SYSTEM then Some(CPP_SYSTEM) else None
    case LikelyMine => Some(if s <= MY_H then MY_H else OTHER_H)
    case PossiblyMine => Some(if s <= MY_H then MY_H else OTHER_H)
    case OtherHeader => Some(OTHER_H)
  }

  /** The section in which a run of headers ends; a header out of order leaves the section as it is. */
  function SectionAfter(s: Section, headers: seq<HeaderType>): Section {
    if headers == [] then s
    else
      var n := |headers| - 1;
      var before := SectionAfter(s, headers[..n]);
      Next(before, headers[n]).GetOr(before)
  }

  /** Does header i of the run get an error message? */
  predicate Complains(s: Section, headers: seq<HeaderType>, i: nat)
    requires i < |headers|
  {
    Next(SectionAfter(s, headers[..i]), headers[i]) == None
  }

  // ----- the order the checker is for

  /** The sections a header may stand in. */
  function Allowed(h: HeaderType): set<Section> {
    match h
    case CSystem => {C_SYSTEM}
    case CppSystem => {CPP_SYSTEM}
    case LikelyMine => {MY_H, OTHER_H}
    case PossiblyMine => {MY_H, OTHER_H}
    case OtherHeader => {OTHER_H}
  }

  /** The headers can be read as one pass through the sections. */
  ghost predicate IsLabelling(headers: seq<HeaderType>, labels: seq<Section>) {
    && |labels| == |headers|
    && (forall i :: 0 <= i < |headers| ==> labels[i] in Allowed(headers[i]))
    && (forall i, j :: 0 <= i < j < |headers| ==> labels[i] <= labels[j])
  }

  ghost predicate Orderly(headers: seq<HeaderType>) {
    exists labels :: IsLabelling(headers, labels)
  }

  /** The section the machine is in is at most the last section of any labelling. */
  lemma {:induction false} GreedyIsLeast(headers: seq<HeaderType>, labels: seq<Section>, k: nat)
    requires IsLabelling(headers, labels) && k <= |headers|
    ensures k > 0 ==> SectionAfter(INITIAL, headers[..k]) <= labels[k - 1]
    ensures forall i :: 0 <= i < k ==> !Complains(INITIAL, headers, i)
  {
    if k > 0 {
      GreedyIsLeast(headers, labels, k - 1);
      assert headers[..k][..k - 1] == headers[..k - 1];
      assert labels[k - 1] in Allowed(headers[k - 1]);
      assert k > 1 ==> labels[k - 2] <= labels[k - 1];
    }
  }

  /** Where the machine does not complain, its own sections are a labelling. */
  lemma {:induction false} GreedyLabels(headers: seq<HeaderType>, k: nat) returns (labels: seq<Section>)
    requires k <= |headers| && forall i :: 0 <= i < k ==> !Complains(INITIAL, headers, i)
    ensures IsLabelling(headers[..k], labels)
    ensures forall i :: 0 <= i < k ==> labels[i] <= SectionAfter(INITIAL, headers[..k])
  {
    if k == 0 {
      labels := [];
    } else {
      assert headers[..k][..k - 1] == headers[..k - 1];
      assert !Complains(INITIAL, headers, k - 1);
      var init := GreedyLabels(headers, k - 1);
      labels := init + [SectionAfter(INITIAL, headers[..k])];
    }
  }

  /** Completeness: a run of headers gets no message if and only if it can be read as one pass through the
      sections, although the machine never looks ahead. */
  lemma GreedyIsComplete(headers: seq<HeaderType>)
    ensures (forall i :: 0 <= i < |headers| ==> !Complains(INITIAL, headers, i)) <==> Orderly(headers)
  {
    assert headers[..|headers|] == headers;
    if forall i :: 0 <= i < |headers| ==> !Complains(INITIAL, headers, i) {
      var labels := GreedyLabels(headers, |headers|);
    }
    if labels :| IsLabelling(headers, labels) {
      GreedyIsLeast(headers, labels, |headers|);
    }
  }

  lemma PrefixComplains(headers: seq<HeaderType>, n: nat, i: nat)
    requires i < n <= |headers|
    ensures Complains(INITIAL, headers[..n], i) <==> Complains(INITIAL, headers, i)
  {
    assert headers[..n][..i] == headers[..i];
  }

  /** The first message comes with the first header that cannot be fitted in any more. */
  lemma FirstMessage(headers: seq<HeaderType>, k: nat)
    requires k < |headers| && Orderly(headers[..k])
    ensures Complains(INITIAL, headers, k) <==> !Orderly(headers[..k + 1])
  {
    GreedyIsComplete(headers[..k]);
    var longer := headers[..k + 1];
    GreedyIsComplete(longer);
    PrefixComplains(headers, k + 1, k);
    forall i | 0 <= i < k
      ensures !Complains(INITIAL, longer, i)
    {
      PrefixComplains(headers, k, i);
      PrefixComplains(headers, k + 1, i);
      assert !Complains(INITIAL, headers[..k], i);
    }
  }

  // ----- the order, in terms of the headers alone

  predicate IsMine(h: HeaderType) {
    h == LikelyMine || h == PossiblyMine
  }

  /** Header i, or one of the file's own at i that follows some other header, stands in the last section. */
  predicate StandsLast(headers: seq<HeaderType>, i: nat)
    requires i < |headers|
  {
    headers[i] == OtherHeader || (IsMine(headers[i]) && exists j :: 0 <= j < i && !IsMine(headers[j]))
  }

  /** Header k comes too late: a system header behind one that stands in the last section, or a C system
      header behind a C++ one. */
  predicate TooLate(headers: seq<HeaderType>, i: nat, k: nat)
    requires i < k < |headers|
  {
    || (headers[k] == CSystem && (headers[i] == CppSystem || StandsLast(headers, i)))
    || (headers[k] == CppSystem && StandsLast(headers, i))
  }

  ghost predicate NoneTooLate(headers: seq<HeaderType>) {
    forall i, k :: 0 <= i < k < |headers| ==> !TooLate(headers, i, k)
  }

  function NaturalLabel(headers: seq<HeaderType>, i: nat): Section
    requires i < |headers|
  {
    match headers[i]
    case CSystem => C_SYSTEM
    case CppSystem => CPP_SYSTEM
    case OtherHeader => OTHER_H
    case _ => if StandsLast(headers, i) then OTHER_H else MY_H
  }

  lemma NaturalLabels(headers: seq<HeaderType>)
    requires NoneTooLate(headers)
    ensures Orderly(headers)
  {
    var labels := seq(|headers|, i requires 0 <= i < |headers| => NaturalLabel(headers, i));
    forall i, k | 0 <= i < k < |headers|
      ensures labels[i] <= labels[k]
    {
      assert !TooLate(headers, i, k);
      if StandsLast(headers, i) && IsMine(headers[k]) {
        assert headers[i] == OtherHeader || exists j :: 0 <= j < i && !IsMine(headers[j]);
      }
    }
    assert IsLabelling(headers, labels);
  }

  /** The order the checker enforces, without sections: no message if and only if no system header follows a
      header of the last kind, or one of the file's own that itself follows another, and no C system header
      follows a C++ one. */
  lemma OrderlyIffNoneTooLate(headers: seq<HeaderType>)
    ensures Orderly(headers) <==> NoneTooLate(headers)
    ensures (forall i :: 0 <= i < |headers| ==> !Complains(INITIAL, headers, i)) <==> NoneTooLate(headers)
  {
    GreedyIsComplete(headers);
    if Orderly(headers) {
      var labels :| IsLabelling(headers, labels);
      forall i, k | 0 <= i < k < |headers|
        ensures !TooLate(headers, i, k)
      {
        if StandsLast(headers, i) && headers[i] != OtherHeader {
          var j :| 0 <= j < i && !IsMine(headers[j]);
          assert labels[j] in Allowed(headers[j]) && labels[j] <= labels[i];
        }
        assert labels[i] in Allowed(headers[i]) && labels[k] in Allowed(headers[k]) && labels[i] <= labels[k];
      }
    }
    if NoneTooLate(headers) {
      NaturalLabels(headers);
    }
  }

  /** The only three messages there are. */
  lemma Messages(s: Section, h: HeaderType)
    requires Next(s, h) == None
    ensures
      || (h == CppSystem && TypeName(h) == "C++ system header" && SectionName(s) == "other header")
      || (h == CSystem && TypeName(h) == "C system header" && SectionName(s) == "other header")
      || (h == CSystem && TypeName(h) == "C system header" && SectionName(s) == "C++ system header")
  {}

  // ----- the object

  class IncludeState {
    var includeList: seq<seq<(string, nat)>>
    var section: Section
    var lastHeader: string

    constructor ()
      ensures includeList == [[]] && section == INITIAL && lastHeader == ""
    {
      includeList := [[]];
      section, lastHeader := INITIAL, "";
      new;
      ResetSection("");
    }

    /** The headers seen are kept apart for every preprocessor branch: a conditional opens a new list, an
        alternative branch starts its list over. */
    method ResetSection(directive: string)
      requires includeList != []
      modifies this
      ensures section == INITIAL && lastHeader == ""
      ensures |includeList| == |old(includeList)| + if directive in {"if", "ifdef", "ifndef"} then 1 else 0
      ensures forall i :: 0 <= i < |old(includeList)| ==>
        var restarted := directive in {"else", "elif"} && i == |old(includeList)| - 1;
        includeList[i] == if restarted then [] else old(includeList)[i]
      ensures directive in {"if", "ifdef", "ifndef"} ==> includeList[|includeList| - 1] == []
    {
      section := INITIAL;
      lastHeader := "";
      if directive in {"if", "ifdef", "ifndef"} {
        includeList := includeList + [[]];
      } else if directive in {"else", "elif"} {
        includeList := includeList[|includeList| - 1 := []];
      }
    }

    method CheckNextIncludeOrder(h: HeaderType) returns (message: Option<string>)
      modifies `section, `lastHeader
      ensures match Next(old(section), h)
        case Some(next) => section == next && message == None
        case None =>
          && section == old(section)
          && message == Some("Found " + TypeName(h) + " after " + SectionName(old(section)))
      ensures lastHeader == if message.Some? || section != old(section) then "" else old(lastHeader)
    {
      var errorMessage := "Found " + TypeName(h) + " after " + SectionName(section);
      var lastSection := section;
      match h {
        case CSystem =>
          if section <= C_SYSTEM {
            section := C_SYSTEM;
          } else {
            lastHeader := "";
            return Some(errorMessage);
          }
        case CppSystem =>
          if section <= CPP_SYSTEM {
            section := CPP_SYSTEM;
          } else {
            lastHeader := "";
            return Some(errorMessage);
          }
        case LikelyMine =>
          section := if section <= MY_H then MY_H else OTHER_H;
        case PossiblyMine =>
          section := if section <= MY_H then MY_H else OTHER_H;
        case OtherHeader =>
          section := OTHER_H;
      }
      if lastSection != section {
        lastHeader := "";
      }
      return None;
    }

    /** The calls for one run of headers after a reset. */
    method CheckRun(headers: seq<HeaderType>) returns (messages: seq<Option<string>>)
      requires includeList != []
      modifies this
      ensures |messages| == |headers| && includeList == old(includeList)
      ensures forall i :: 0 <= i < |headers| ==> (messages[i].Some? <==> Complains(INITIAL, headers, i))
      ensures (forall i :: 0 <= i < |headers| ==> messages[i] == None) <==> Orderly(headers)
    {
      ResetSection("");
      messages := [];
      for k := 0 to |headers|
        invariant section == SectionAfter(INITIAL, headers[..k]) && |messages| == k
        invariant includeList == old(includeList)
        invariant forall i :: 0 <= i < k ==> (messages[i].Some? <==> Complains(INITIAL, headers, i))
      {
        assert headers[..k + 1][..k] == headers[..k];
        var message := CheckNextIncludeOrder(headers[k]);
        messages := messages + [message];
      }
      GreedyIsComplete(headers);
      assert forall i :: 0 <= i < |headers| ==> (messages[i] == None <==> !Complains(INITIAL, headers, i));
    }
  }
}

/** DashboardComponent: the lab's counters (members, publications, tools,
    events), the publications-per-member chart and the teacher/student
    distribution. */
module Dashboard {
  import opened Js
  import opened Effects
  import MemberService
  import PubService
  import EvtService
  import OutilService

  /** `m.type && m.type.toLowerCase() === 'enseignant'` */
  predicate IsTeacher(m: MemberService.ListedMember) {
    m.memberType != "" && ToLower(m.memberType) == MemberService.TEACHER
  }

  /** How many of the members count as teachers. */
  function CountTeachers(members: seq<MemberService.ListedMember>): (r: nat)
    ensures r <= |members|
  {
    if |members| == 0 then 0
    else CountTeachers(members[..|members| - 1]) + (if IsTeacher(members[|members| - 1]) then 1 else 0)
  }

  /** The counting loop: every member is a teacher or a student. */
  method CountRoles(members: seq<MemberService.ListedMember>) returns (nbTeacher: nat, nbStudent: nat)
    ensures nbTeacher == CountTeachers(members)
    ensures nbTeacher + nbStudent == |members|
  {
    nbTeacher, nbStudent := 0, 0;
    for i := 0 to |members|
      invariant nbTeacher == CountTeachers(members[..i])
      invariant nbTeacher + nbStudent == i
    {
      assert members[..i + 1][..i] == members[..i];
      if IsTeacher(members[i]) {
        nbTeacher := nbTeacher + 1;
      } else {
        nbStudent := nbStudent + 1;
      }
    }
    assert members[..|members|] == members;
  }

  /** Backend records the list mapping classifies as teachers: those
      without a `dateInscription` property. */
  function CountWithoutInscription(list: seq<JsVal>): nat {
    if |list| == 0 then 0
    else
      CountWithoutInscription(list[..|list| - 1])
        + (if Get(list[|list| - 1], "dateInscription") == Undefined then 1 else 0)
  }

  /** A listed member is a teacher exactly when its record has no
      `dateInscription` property. */
  lemma ListedTeacher(m: JsVal, today: string)
    ensures IsTeacher(MemberService.ListMember(m, today)) <==> Get(m, "dateInscription") == Undefined
  {
    LowerCaseUnchanged(MemberService.TEACHER);
    LowerCaseUnchanged(MemberService.STUDENT);
    assert MemberService.STUDENT != MemberService.TEACHER by {
      assert MemberService.STUDENT[1] != MemberService.TEACHER[1];
    }
  }

  /** Listing a prefix of the records lists a prefix of the members. */
  lemma ListPrefix(list: seq<JsVal>, today: string)
    requires |list| > 0 && !HasNullish(list)
    ensures !HasNullish(list[..|list| - 1])
    ensures var members := MemberService.GetAllMembers(Ok(list), today);
      && |members| == |list|
      && members[..|members| - 1] == MemberService.GetAllMembers(Ok(list[..|list| - 1]), today)
      && members[|members| - 1] == MemberService.ListMember(list[|list| - 1], today)
  {
    var init := list[..|list| - 1];
    assert forall k :: 0 <= k < |init| ==> init[k] == list[k];
  }

  /** The teacher count of the chart is the number of backend records
      without a `dateInscription` property. */
  lemma {:induction false} TeachersAreRecordsWithoutInscription(list: seq<JsVal>, today: string)
    requires !HasNullish(list)
    ensures CountTeachers(MemberService.GetAllMembers(Ok(list), today)) == CountWithoutInscription(list)
  {
    if |list| > 0 {
      ListPrefix(list, today);
      TeachersAreRecordsWithoutInscription(list[..|list| - 1], today);
      ListedTeacher(list[|list| - 1], today);
    }
  }

  /** `` `${m.nom} ${m.prenom}` `` */
  function Label(m: MemberService.ListedMember): string {
    ToStr(m.nom) + " " + ToStr(m.prenom)
  }

  /** `f && Array.isArray(f.pubs) ? f.pubs.length : 0`; a failed fetch
      was turned into null. */
  function PubCount(full: Response<JsVal>): (r: nat)
    ensures full.Ok? && Truthy(full.body) && Get(full.body, "pubs").Arr? ==> r == |Get(full.body, "pubs").items|
    ensures full.Failed? || !Truthy(full.body) || !Get(full.body, "pubs").Arr? ==> r == 0
  {
    if full.Ok? && Truthy(full.body) && Get(full.body, "pubs").Arr? then |Get(full.body, "pubs").items| else 0
  }

  /** One full-member fetch per member, by `String(m.id)`. */
  function FullFetches(members: seq<MemberService.ListedMember>): (r: seq<Call>)
    ensures |r| == |members| && forall i :: 0 <= i < |members| ==> r[i] == FetchFullMember(ToStr(members[i].id))
  {
    seq(|members|, i requires 0 <= i < |members| => FetchFullMember(ToStr(members[i].id)))
  }

  function Labels(members: seq<MemberService.ListedMember>): (r: seq<string>)
    ensures |r| == |members| && forall i :: 0 <= i < |members| ==> r[i] == Label(members[i])
  {
    seq(|members|, i requires 0 <= i < |members| => Label(members[i]))
  }

  function PubCounts(fulls: seq<Response<JsVal>>): (r: seq<nat>)
    ensures |r| == |fulls| && forall i :: 0 <= i < |fulls| ==> r[i] == PubCount(fulls[i])
  {
    seq(|fulls|, i requires 0 <= i < |fulls| => PubCount(fulls[i]))
  }

  /** Once every full-member fetch has answered: the fetches issued, one
      label and one publication count per member, in member order, and the
      [teachers, students] distribution. */
  predicate ChartsOf(members: seq<MemberService.ListedMember>, fulls: seq<Response<JsVal>>, calls: seq<Call>,
                     labels: seq<string>, tab: seq<nat>, distribution: seq<nat>)
  {
    && |fulls| == |members|
    && |calls| == |members| && |labels| == |members| && |tab| == |members|
    && (forall i :: 0 <= i < |members| ==> calls[i] == FetchFullMember(ToStr(members[i].id)))
    && (forall i :: 0 <= i < |members| ==> labels[i] == Label(members[i]))
    && (forall i :: 0 <= i < |members| ==> tab[i] == PubCount(fulls[i]))
    && distribution == [CountTeachers(members), |members| - CountTeachers(members)]
  }

  method Charts(members: seq<MemberService.ListedMember>, fulls: seq<Response<JsVal>>)
    returns (calls: seq<Call>, labels: seq<string>, tab: seq<nat>, distribution: seq<nat>)
    requires |fulls| == |members|
    ensures ChartsOf(members, fulls, calls, labels, tab, distribution)
  {
    calls := FullFetches(members);
    labels := Labels(members);
    tab := PubCounts(fulls);
    var nbTeacher, nbStudent := CountRoles(members);
    distribution := [nbTeacher, nbStudent];
  }

  class DashboardView {
    var nbMembres: nat
    var nbPublications: nat
    var nbOutils: nat
    var nbEvenements: nat
    var chartLabels: seq<string>
    var tabPub: seq<nat>
    var distribution: seq<nat>

    constructor ()
      ensures nbMembres == 0 && nbPublications == 0 && nbOutils == 0 && nbEvenements == 0
      ensures chartLabels == [] && tabPub == [] && distribution == []
    {
      nbMembres, nbPublications, nbOutils, nbEvenements := 0, 0, 0, 0;
      chartLabels, tabPub, distribution := [], [], [];
    }

    /** The member subscription: counts the listed members; with none, the
        charts are emptied and the distribution is [0, 0]; otherwise one
        full-member fetch per member (by `String(id)`), and once all have
        answered, one label and one publication count per member, in
        member order, and the [teachers, students] distribution. */
    method LoadMembers(response: Response<seq<JsVal>>, today: string, fulls: seq<Response<JsVal>>)
      returns (calls: seq<Call>)
      requires |fulls| == |MemberService.GetAllMembers(response, today)|
      modifies this
      ensures var members := MemberService.GetAllMembers(response, today);
        && nbMembres == |members|
        && (|members| == 0 ==> calls == [] && chartLabels == [] && tabPub == [] && distribution == [0, 0])
        && (|members| > 0 ==> ChartsOf(members, fulls, calls, chartLabels, tabPub, distribution))
      ensures nbPublications == old(nbPublications) && nbOutils == old(nbOutils) && nbEvenements == old(nbEvenements)
    {
      var members := MemberService.GetAllMembers(response, today);
      nbMembres := |members|;
      if |members| == 0 {
        chartLabels, tabPub, distribution := [], [], [0, 0];
        return [];
      }
      calls, chartLabels, tabPub, distribution := Charts(members, fulls);
    }

    /** The three resource counters: the length of each (error-free) list. */
    method LoadCounts(pubs: Response<seq<JsVal>>, outils: Response<seq<JsVal>>, evts: Response<seq<JsVal>>)
      modifies this
      ensures nbPublications == |PubService.GetAllPubs(pubs)|
      ensures nbOutils == |OutilService.GetAllOutils(outils)|
      ensures nbEvenements == |EvtService.GetAllEvents(evts)|
      ensures pubs.Ok? && !HasNullish(pubs.body) ==> nbPublications == |pubs.body|
      ensures pubs.Failed? ==> nbPublications == 0
      ensures nbMembres == old(nbMembres) && chartLabels == old(chartLabels)
      ensures tabPub == old(tabPub) && distribution == old(distribution)
    {
      nbPublications := |PubService.GetAllPubs(pubs)|;
      nbOutils := |OutilService.GetAllOutils(outils)|;
      nbEvenements := |EvtService.GetAllEvents(evts)|;
    }
  }
}

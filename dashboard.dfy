/** The dashboard's application list: the records, the add form and its
    visibility as the state of a `Dashboard` object, the add handler that appends a
    record built from the form, the counts shown above the list, and the colour
    class each status is drawn with. */
module DashboardPage {
  import opened Strings

  datatype ApplicationStatus = Applied | Interview | Offer | Rejected

  /** The status as the string the page compares and stores. */
  function StatusName(s: ApplicationStatus): string {
    match s
    case Applied => "Applied"
    case Interview => "Interview"
    case Offer => "Offer"
    case Rejected => "Rejected"
  }

  datatype JobApplication = JobApplication(
    id: int,
    company: string,
    position: string,
    status: ApplicationStatus,
    appliedDate: string,
    salary: Option<string>)

  /** The contents of the add form. */
  datatype ApplicationForm = ApplicationForm(
    company: string,
    position: string,
    status: ApplicationStatus,
    appliedDate: string,
    salary: string)

  const EmptyForm := ApplicationForm("", "", Applied, "", "")

  /** The three records the page starts with. */
  const InitialApplications: seq<JobApplication> := [
    JobApplication(1, "Tech Corp", "Software Engineer", Interview, "2024-01-15", Some("$120,000")),
    JobApplication(2, "StartupXYZ", "Frontend Developer", Applied, "2024-01-20", Some("$95,000")),
    JobApplication(3, "Big Tech Inc", "Full Stack Developer", Offer, "2024-01-10", Some("$140,000"))
  ]

  /** Ids are 1, 2, ..., n in list order. */
  predicate IdsInOrder(apps: seq<JobApplication>) {
    forall i | 0 <= i < |apps| :: apps[i].id == i + 1
  }

  /** Ids in order are distinct, so an id names one record. */
  lemma IdsInOrderUnique(apps: seq<JobApplication>)
    requires IdsInOrder(apps)
    ensures forall i, j | 0 <= i < j < |apps| :: apps[i].id != apps[j].id
  {
  }

  /** The record the add handler builds from the form: the next id, the form's
      fields, and today's date when the form leaves the date blank. */
  function NewApplication(id: int, form: ApplicationForm, today: string): (a: JobApplication)
    ensures a.id == id && a.company == form.company && a.position == form.position
    ensures a.status == form.status && a.salary == Some(form.salary)
    ensures form.appliedDate == "" ==> a.appliedDate == today
    ensures form.appliedDate != "" ==> a.appliedDate == form.appliedDate
  {
    JobApplication(id, form.company, form.position, form.status,
      if form.appliedDate != "" then form.appliedDate else today, Some(form.salary))
  }

  /** Appending the record with the next id keeps the ids in order. */
  lemma AppendKeepsIdsInOrder(apps: seq<JobApplication>, a: JobApplication)
    requires IdsInOrder(apps) && a.id == |apps| + 1
    ensures IdsInOrder(apps + [a])
  {
    forall i | 0 <= i < |apps| + 1 ensures (apps + [a])[i].id == i + 1 {
      if i < |apps| {
        assert (apps + [a])[i] == apps[i];
      }
    }
  }

  class Dashboard {
    var applications: seq<JobApplication>
    var newApplication: ApplicationForm
    var showAddForm: bool

    predicate Valid()
      reads this
    {
      IdsInOrder(applications)
    }

    /** The page's initial state: the three sample records, an empty form, hidden. */
    constructor()
      ensures applications == InitialApplications
      ensures newApplication == EmptyForm && !showAddForm
      ensures Valid()
    {
      applications := InitialApplications;
      newApplication := EmptyForm;
      showAddForm := false;
    }

    /** `handleAddApplication`: unless both company and position are filled in,
        nothing changes; otherwise exactly one record, numbered one past the length
        of the list, is appended, the form is reset and hidden. */
    method HandleAddApplication(today: string)
      requires Valid()
      modifies this
      ensures old(newApplication.company) == "" || old(newApplication.position) == "" ==>
        applications == old(applications) && newApplication == old(newApplication) &&
        showAddForm == old(showAddForm)
      ensures old(newApplication.company) != "" && old(newApplication.position) != "" ==>
        applications ==
          old(applications) + [NewApplication(|old(applications)| + 1, old(newApplication), today)] &&
        newApplication == EmptyForm && !showAddForm
      ensures Valid()
    {
      if newApplication.company != "" && newApplication.position != "" {
        var app := NewApplication(|applications| + 1, newApplication, today);
        AppendKeepsIdsInOrder(applications, app);
        applications := applications + [app];
        newApplication := EmptyForm;
        showAddForm := false;
      }
    }

    /** The "+ Add Application" button shows the form. */
    method OpenAddForm()
      modifies this
      ensures showAddForm
      ensures applications == old(applications) && newApplication == old(newApplication)
    {
      showAddForm := true;
    }

    /** The form's Cancel button hides it; what was typed stays in the form. */
    method CancelAddForm()
      modifies this
      ensures !showAddForm
      ensures applications == old(applications) && newApplication == old(newApplication)
    {
      showAddForm := false;
    }

    /** The inputs' change handlers replace the form's contents. */
    method EditForm(form: ApplicationForm)
      modifies this
      ensures newApplication == form
      ensures applications == old(applications) && showAddForm == old(showAddForm)
    {
      newApplication := form;
    }
  }

  // ---------------------------------------------------------------------------
  // Counts

  /** `apps.filter(app => app.status === s).length`. */
  function CountStatus(apps: seq<JobApplication>, s: ApplicationStatus): (n: nat)
    ensures n <= |apps|
  {
    if apps == [] then 0
    else (if apps[0].status == s then 1 else 0) + CountStatus(apps[1..], s)
  }

  datatype Stats = Stats(total: nat, interviews: nat, offers: nat, applied: nat)

  /** The counts shown above the list. */
  function ComputeStats(apps: seq<JobApplication>): (st: Stats)
    ensures st.total == |apps|
  {
    Stats(|apps|, CountStatus(apps, Interview), CountStatus(apps, Offer), CountStatus(apps, Applied))
  }

  /** Every record has one status, so the counts of distinct statuses add up to at
      most the number of records. */
  lemma {:induction false} CountsBounded(apps: seq<JobApplication>)
    ensures CountStatus(apps, Interview) + CountStatus(apps, Offer) + CountStatus(apps, Applied) +
      CountStatus(apps, Rejected) == |apps|
    ensures ComputeStats(apps).interviews + ComputeStats(apps).offers + ComputeStats(apps).applied <=
      ComputeStats(apps).total
  {
    if apps != [] {
      CountsBounded(apps[1..]);
    }
  }

  /** Appending a record raises its status's count by one and leaves the others. */
  lemma {:induction false} CountAppend(apps: seq<JobApplication>, a: JobApplication, s: ApplicationStatus)
    ensures CountStatus(apps + [a], s) == CountStatus(apps, s) + (if a.status == s then 1 else 0)
  {
    if apps != [] {
      assert (apps + [a])[1..] == apps[1..] + [a];
      CountAppend(apps[1..], a, s);
    }
  }

  /** So a successful add raises the total by one and the count of the form's status
      by one; the other counts stay. */
  lemma AddUpdatesStats(apps: seq<JobApplication>, form: ApplicationForm, today: string)
    ensures ComputeStats(apps + [NewApplication(|apps| + 1, form, today)]).total ==
      ComputeStats(apps).total + 1
    ensures ComputeStats(apps + [NewApplication(|apps| + 1, form, today)]).interviews ==
      ComputeStats(apps).interviews + (if form.status == Interview then 1 else 0)
    ensures ComputeStats(apps + [NewApplication(|apps| + 1, form, today)]).offers ==
      ComputeStats(apps).offers + (if form.status == Offer then 1 else 0)
    ensures ComputeStats(apps + [NewApplication(|apps| + 1, form, today)]).applied ==
      ComputeStats(apps).applied + (if form.status == Applied then 1 else 0)
  {
    var a := NewApplication(|apps| + 1, form, today);
    CountAppend(apps, a, Interview);
    CountAppend(apps, a, Offer);
    CountAppend(apps, a, Applied);
  }

  /** The sample list: one record in each of Interview, Applied and Offer. */
  lemma InitialStats()
    ensures ComputeStats(InitialApplications) == Stats(3, 1, 1, 1)
    ensures IdsInOrder(InitialApplications)
  {
    assert InitialApplications[1..][1..][1..] == [];
  }

  // ---------------------------------------------------------------------------
  // Status colours

  const AppliedColor := "bg-blue-100 text-blue-800"
  const InterviewColor := "bg-yellow-100 text-yellow-800"
  const OfferColor := "bg-green-100 text-green-800"
  const RejectedColor := "bg-red-100 text-red-800"
  const DefaultColor := "bg-gray-100 text-gray-800"

  /** `getStatusColor`: defined for every string, gray unless it names a status. */
  function StatusColor(status: string): (c: string)
    ensures c == DefaultColor <==>
      status != "Applied" && status != "Interview" && status != "Offer" && status != "Rejected"
  {
    if status == "Applied" then AppliedColor
    else if status == "Interview" then InterviewColor
    else if status == "Offer" then OfferColor
    else if status == "Rejected" then RejectedColor
    else DefaultColor
  }

  /** The four statuses are drawn in four different colours, none of them gray. */
  lemma StatusColorsDistinct(s: ApplicationStatus, t: ApplicationStatus)
    ensures StatusColor(StatusName(s)) != DefaultColor
    ensures s != t ==> StatusColor(StatusName(s)) != StatusColor(StatusName(t))
  {
  }
}

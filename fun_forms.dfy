/** The in-memory store of fun-form submissions: a list that only grows, with
    a newest-first listing of all forms and of one user's forms. */
module FunForms {
  import opened Common
  import opened Sequences

  datatype FunForm = FunForm(
    nickname: string,
    favoriteEntertainment: Option<string>,
    moodToday: string,
    funFact: Option<string>,
    wouldYouRather: string,
    submittedAt: Time,
    username: string)

  /** Forms listed newest first (`OrderByDescending(f => f.SubmittedAt)`). */
  function SubmittedKey(f: FunForm): SortKey {
    SortKey(f.submittedAt, 0)
  }

  /** The form was submitted by `username`, compared ignoring case. */
  function ByUser(username: string): FunForm -> bool {
    (f: FunForm) => EqualsIgnoreCase(f.username, username)
  }

  /** In the listing order, an earlier-listed form was never submitted
      earlier. */
  lemma SubmittedOrderMeaning(fs: seq<FunForm>, i: nat, j: nat)
    requires Ordered(fs, SubmittedKey) && i < j < |fs|
    ensures fs[i].submittedAt >= fs[j].submittedAt
  {
    assert !KeyBefore(SubmittedKey(fs[j]), SubmittedKey(fs[i]));
  }

  class InMemoryFunFormService {
    var forms: seq<FunForm>

    constructor ()
      ensures forms == []
    {
      forms := [];
    }

    /** `SaveFormAsync`: stamps the form with the clock reading `now` and
        appends it. */
    method SaveForm(form: FunForm, now: Time)
      modifies this
      ensures forms == old(forms) + [form.(submittedAt := now)]
    {
      forms := forms + [form.(submittedAt := now)];
    }

    /** `GetAllFormsAsync`: every form, newest first. */
    function GetAllForms(): (r: seq<FunForm>)
      reads this
      ensures multiset(r) == multiset(forms)
      ensures Ordered(r, SubmittedKey)
    {
      SortBy(forms, SubmittedKey)
    }

    /** `GetUserFormsAsync`: exactly the forms of `username`, compared
        ignoring case, newest first; the full listing with the other users'
        forms taken out. */
    function GetUserForms(username: string): (r: seq<FunForm>)
      reads this
      ensures forall f :: f in r <==> f in forms && EqualsIgnoreCase(f.username, username)
      ensures Ordered(r, SubmittedKey)
      ensures r == Filter(GetAllForms(), ByUser(username))
      ensures multiset(r) <= multiset(GetAllForms())
    {
      var p := ByUser(username);
      FilterSortCommute(forms, SubmittedKey, p);
      FilterMembers(forms, p);
      SortByElements(Filter(forms, p), SubmittedKey);
      FilterSubMultiset(GetAllForms(), p);
      SortBy(Filter(forms, p), SubmittedKey)
    }
  }
}

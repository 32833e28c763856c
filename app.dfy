/** The `App` component: its seven state variables become fields, and each
    event handler becomes a method that returns the request it sends and
    takes the way that request resolved as a parameter. */
module NoteApp {
  import opened Text
  import opened Notes
  import opened View

  class App {
    var notes: seq<Note>
    var newTitle: string
    var newContent: string
    var showModal: bool
    var selectedNote: Option<Note>
    var searchTerm: string
    var sortOrder: SortOrder

    /** The initial `useState` values. */
    constructor ()
      ensures notes == [] && newTitle == "" && newContent == ""
      ensures !showModal && selectedNote == None
      ensures searchTerm == "" && sortOrder == Asc
    {
      notes := [];
      newTitle := "";
      newContent := "";
      showModal := false;
      selectedNote := None;
      searchTerm := "";
      sortOrder := Asc;
    }

    /** `filteredNotes`, the list the component renders: exactly the notes
        the search term matches, each as often as it is held. */
    function FilteredNotes(): (r: seq<Note>)
      reads this
      ensures forall n :: n in r <==> n in notes && Matches(n, searchTerm)
      ensures forall n :: multiset(r)[n] == if Matches(n, searchTerm) then multiset(notes)[n] else 0
    {
      FilterSpec(notes, searchTerm);
      FilterNotes(notes, searchTerm)
    }

    /** `fetchNotes`: a successful list replaces the notes wholesale; a
        failed one leaves them as they were. */
    method FetchNotes(reply: Reply<seq<Note>>) returns (sent: Request)
      modifies this`notes
      ensures sent == List
      ensures notes == if reply.Success? then reply.data else old(notes)
    {
      sent := List;
      if reply.Success? {
        notes := reply.data;
      }
    }

    /** `handleAddNote`: nothing is sent unless both inputs have a
        non-space character; a confirmed create appends the server's note
        and clears both inputs, a failed one changes nothing. */
    method HandleAddNote(reply: Reply<Note>) returns (sent: Option<Request>)
      modifies this`notes, this`newTitle, this`newContent
      ensures sent == if Trim(old(newTitle)) != "" && Trim(old(newContent)) != ""
                      then Some(Create(Draft(old(newTitle), old(newContent)))) else None
      ensures if sent.Some? && reply.Success?
              then notes == old(notes) + [reply.data] && newTitle == "" && newContent == ""
              else notes == old(notes) && newTitle == old(newTitle) && newContent == old(newContent)
      ensures sent.Some? && reply.Success? && UniqueIds(old(notes)) && !HasId(old(notes), reply.data.id) ==> UniqueIds(notes)
    {
      sent := None;
      if Trim(newTitle) != "" && Trim(newContent) != "" {
        sent := Some(Create(Draft(newTitle, newContent)));
        if reply.Success? {
          AppendUnique(notes, reply.data);
          notes := notes + [reply.data];
          newTitle := "";
          newContent := "";
        }
      }
    }

    /** `handleDeleteNote`: a confirmed delete drops every note with `id`
        and keeps the others in order; a failed one changes nothing. */
    method HandleDeleteNote(id: string, reply: Reply<()>) returns (sent: Request)
      modifies this`notes
      ensures sent == Delete(id)
      ensures notes == if reply.Success? then RemoveById(old(notes), id) else old(notes)
      ensures forall n :: n in notes ==> n in old(notes)
      ensures reply.Success? ==> forall n :: n in notes ==> n.id != id
      ensures !HasId(old(notes), id) ==> notes == old(notes)
      ensures UniqueIds(old(notes)) ==> UniqueIds(notes)
    {
      sent := Delete(id);
      RemoveByIdSpec(notes, id);
      if reply.Success? {
        forall n | n in RemoveById(notes, id) ensures n in notes {
          assert multiset(RemoveById(notes, id))[n] > 0;
        }
        notes := RemoveById(notes, id);
      }
    }

    /** `handleEditNote`: a confirmed update puts the server's note at every
        position holding `id` and closes the modal; a failed one changes
        nothing. */
    method HandleEditNote(id: string, title: string, content: string, reply: Reply<Note>) returns (sent: Request)
      modifies this`notes, this`showModal
      ensures sent == Update(id, Draft(title, content))
      ensures notes == if reply.Success? then ReplaceById(old(notes), id, reply.data) else old(notes)
      ensures showModal == if reply.Success? then false else old(showModal)
      ensures |notes| == |old(notes)|
      ensures reply.Success? ==>
                forall i :: 0 <= i < |notes| ==> notes[i] == if old(notes)[i].id == id then reply.data else old(notes)[i]
      ensures !HasId(old(notes), id) ==> notes == old(notes)
      ensures UniqueIds(old(notes)) && (reply.Success? ==> reply.data.id == id) ==> UniqueIds(notes)
    {
      sent := Update(id, Draft(title, content));
      if reply.Success? {
        ReplaceByIdSpec(notes, id, reply.data);
        forall i | 0 <= i < |notes| ensures ReplaceById(notes, id, reply.data)[i] == if notes[i].id == id then reply.data else notes[i] {
          ReplaceByIdAt(notes, id, reply.data, i);
        }
        notes := ReplaceById(notes, id, reply.data);
        showModal := false;
      }
    }

    /** `searchNotes`: the search box's value becomes the search term. */
    method SearchNotes(value: string)
      modifies this`searchTerm
      ensures searchTerm == value
    {
      searchTerm := value;
    }

    /** `handleSort`: the notes become the currently shown notes ordered by
        title in the current direction (notes hidden by the search are
        dropped), and the direction flips. */
    method HandleSort()
      modifies this`notes, this`sortOrder
      ensures notes == SortByTitle(FilterNotes(old(notes), searchTerm), old(sortOrder))
      ensures multiset(notes) == multiset(FilterNotes(old(notes), searchTerm))
      ensures forall n :: n in notes <==> n in old(notes) && Matches(n, searchTerm)
      ensures SortedBy(notes, old(sortOrder))
      ensures forall t :: Select(notes, TitleIs(t)) == Select(FilterNotes(old(notes), searchTerm), TitleIs(t))
      ensures FilteredNotes() == notes
      ensures sortOrder == Flip(old(sortOrder))
      ensures UniqueIds(old(notes)) ==> UniqueIds(notes)
    {
      var shown := FilterNotes(notes, searchTerm);
      var sorted := SortByTitle(shown, sortOrder);
      SortShown(notes, searchTerm, sortOrder);
      forall t ensures Select(sorted, TitleIs(t)) == Select(shown, TitleIs(t)) {
        SortByTitleStable(shown, sortOrder, t);
      }
      FilterSpec(notes, searchTerm);
      if UniqueIds(notes) {
        PermutationKeepsUnique(shown, sorted);
      }
      notes := sorted;
      sortOrder := Flip(sortOrder);
    }

    /** The modal's title input: only the title of the selected note
        changes. */
    method EditSelectedTitle(value: string)
      requires showModal && selectedNote.Some?
      modifies this`selectedNote
      ensures selectedNote == Some(old(selectedNote).value.(title := value))
    {
      selectedNote := Some(selectedNote.value.(title := value));
    }

    /** The modal's content input: only the content of the selected note
        changes. */
    method EditSelectedContent(value: string)
      requires showModal && selectedNote.Some?
      modifies this`selectedNote
      ensures selectedNote == Some(old(selectedNote).value.(content := value))
    {
      selectedNote := Some(selectedNote.value.(content := value));
    }

    /** The modal's Save button: an edit with the selected note's id, title
        and content. */
    method SaveSelected(reply: Reply<Note>) returns (sent: Request)
      requires showModal && selectedNote.Some?
      modifies this`notes, this`showModal
      ensures sent == Update(selectedNote.value.id, Draft(selectedNote.value.title, selectedNote.value.content))
      ensures notes == if reply.Success? then ReplaceById(old(notes), selectedNote.value.id, reply.data) else old(notes)
      ensures showModal == !reply.Success?
    {
      var n := selectedNote.value;
      sent := HandleEditNote(n.id, n.title, n.content, reply);
    }

    /** The modal's Close button. */
    method CloseModal()
      modifies this`showModal
      ensures !showModal
    {
      showModal := false;
    }
  }

  /** Two sorts in a row with no change in between: the direction is back
      where it started, and the second sort orders the notes the first one
      left by title in the opposite direction. */
  method SortTwice(app: App)
    modifies app`notes, app`sortOrder
    ensures app.sortOrder == old(app.sortOrder)
    ensures SortedBy(app.notes, Flip(old(app.sortOrder)))
    ensures multiset(app.notes) == multiset(FilterNotes(old(app.notes), app.searchTerm))
  {
    app.HandleSort();
    ghost var first := app.notes;
    app.HandleSort();
    FilterOfMatching(first, app.searchTerm);
  }

  /** A title of a single space sends no create and leaves the notes and
      the inputs as they were. */
  method BlankTitleScenario() returns (sent: Option<Request>, notes: seq<Note>, title: string)
    ensures sent == None && notes == [] && title == " "
  {
    var app := new App();
    app.newTitle := " ";
    app.newContent := "milk";
    assert Trim(" ") == "";
    sent := app.HandleAddNote(Success(Note("3", " ", "milk")));
    notes := app.notes;
    title := app.newTitle;
  }
}

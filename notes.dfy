/** The state the notes screen keeps (`pages`, `selectedPageId`, `editedContent`,
    `isEditing`) and the handlers that replace it. Each handler's network request
    is left out; what remains is the local state change that the screen applies
    when the request is sent (title, content, favorite) or when it succeeds
    (add, delete). */
module NotesScreen {
  import opened Wrappers
  import opened Pages

  class Notes {
    var pages: seq<Page>
    /** The selected page's id; 0 means no page is selected. */
    var selectedPageId: int
    /** The editor's text; `None` when it was copied from an undefined content. */
    var editedContent: Option<string>
    var isEditing: bool

    /** The selection names a page in the list, or no page at all. */
    predicate SelectionValid()
      reads this
    {
      selectedPageId == 0 || HasId(pages, selectedPageId)
    }

    /** `pages.find((page) => page.id === selectedPageId)`. */
    function SelectedPage(): (r: Option<Page>)
      reads this
      ensures r.Some? ==> r.value in pages && r.value.id == selectedPageId
      ensures r.None? <==> !HasId(pages, selectedPageId)
    {
      Find(pages, selectedPageId)
    }

    /** The initial `useState` values. */
    constructor ()
      ensures pages == [] && selectedPageId == 0 && editedContent == Some("") && isEditing
      ensures SelectionValid()
    {
      pages := [];
      selectedPageId := 0;
      editedContent := Some("");
      isEditing := true;
    }

    /** The effect that runs after every render in which `selectedPage` is a new
        object: the editor takes the selected page's content. React compares that
        dependency by identity, so the handlers below run it exactly when they rebuilt
        the selected page or moved the selection to another page that exists. */
    method SyncEditor()
      modifies this
      ensures pages == old(pages) && selectedPageId == old(selectedPageId) && isEditing == old(isEditing)
      ensures editedContent == match Find(pages, selectedPageId)
        case Some(p) => p.content
        case None => old(editedContent)
    {
      var selected := SelectedPage();
      if selected.Some? {
        editedContent := selected.value.content;
      }
    }

    /** A successful page-list load: the list is replaced and, when it is not empty,
        its first page is selected and its content copied into the editor. */
    method LoadPages(loaded: seq<Page>)
      modifies this
      ensures pages == loaded && isEditing == old(isEditing)
      ensures |loaded| > 0 ==> selectedPageId == loaded[0].id && editedContent == loaded[0].content
      ensures |loaded| == 0 ==> selectedPageId == old(selectedPageId) && editedContent == old(editedContent)
      ensures |loaded| > 0 || old(selectedPageId) == 0 ==> SelectionValid()
    {
      pages := loaded;
      if |loaded| > 0 {
        selectedPageId := loaded[0].id;
        editedContent := loaded[0].content;
      }
    }

    /** `toggleFavorite(pageId)`, applied before the server answers. Toggling the
        selected page rebuilds it, so the editor then shows its (coerced) content. */
    method ToggleFavorite(pageId: int)
      modifies this
      ensures pages == Pages.ToggleFavorite(old(pages), pageId)
      ensures selectedPageId == old(selectedPageId) && isEditing == old(isEditing)
      ensures pageId == old(selectedPageId) && old(HasId(pages, pageId)) ==>
        editedContent == Some(old(SelectedPage()).value.content.GetOr(""))
      ensures !(pageId == old(selectedPageId) && old(HasId(pages, pageId))) ==>
        editedContent == old(editedContent)
      ensures old(SelectionValid()) ==> SelectionValid()
    {
      var page := Find(pages, pageId);
      if page.None? {
        return;
      }
      var updatedPage := Toggled(page.value);
      IdsKeepSelection(pages, ReplaceById(pages, pageId, updatedPage), selectedPageId);
      FindFirstAfterReplace(pages, pageId, updatedPage);
      pages := ReplaceById(pages, pageId, updatedPage);
      if pageId == selectedPageId {
        assert SelectedPage() == Some(updatedPage);
        SyncEditor();
        assert editedContent == updatedPage.content;
      }
    }

    /** `updateTitle(newTitle)`: a no-op when no page is selected. The rebuilt page
        is a new object, so the editor is reset to the page's stored content, which
        discards text typed but not yet saved. */
    method UpdateTitle(newTitle: string)
      modifies this
      ensures pages == Pages.UpdateTitle(old(pages), old(selectedPageId), newTitle)
      ensures selectedPageId == old(selectedPageId) && isEditing == old(isEditing)
      ensures old(SelectedPage()).Some? ==> editedContent == old(SelectedPage()).value.content
      ensures old(SelectedPage()).None? ==> editedContent == old(editedContent)
      ensures old(SelectionValid()) ==> SelectionValid()
    {
      var selected := SelectedPage();
      if selected.None? {
        return;
      }
      var updatedPage := selected.value.(title := newTitle);
      IdsKeepSelection(pages, ReplaceById(pages, selectedPageId, updatedPage), selectedPageId);
      FindFirstAfterReplace(pages, selectedPageId, updatedPage);
      pages := ReplaceById(pages, selectedPageId, updatedPage);
      assert SelectedPage() == Some(updatedPage);
      SyncEditor();
      assert editedContent == updatedPage.content;
    }

    /** `updateContent(newContent)`: the page's content and the editor both take the
        new content; a no-op when no page is selected. The handlers pass the editor's
        draft, which may be unset. */
    method UpdateContent(newContent: Option<string>)
      modifies this
      ensures pages == Pages.UpdateContent(old(pages), old(selectedPageId), newContent)
      ensures old(SelectedPage()).Some? ==> editedContent == newContent
      ensures old(SelectedPage()).None? ==> editedContent == old(editedContent)
      ensures selectedPageId == old(selectedPageId) && isEditing == old(isEditing)
      ensures old(SelectionValid()) ==> SelectionValid()
    {
      var selected := SelectedPage();
      if selected.None? {
        return;
      }
      var updatedPage := selected.value.(content := newContent);
      IdsKeepSelection(pages, ReplaceById(pages, selectedPageId, updatedPage), selectedPageId);
      FindFirstAfterReplace(pages, selectedPageId, updatedPage);
      pages := ReplaceById(pages, selectedPageId, updatedPage);
      // The handler's own `setEditedContent(newContent)` is subsumed by the effect,
      // which assigns the same value from the rebuilt page.
      assert SelectedPage() == Some(updatedPage);
      SyncEditor();
      assert editedContent == updatedPage.content;
    }

    /** The textarea's `onChange`: the draft takes the typed text and nothing is saved. */
    method EditText(text: string)
      modifies this
      ensures editedContent == Some(text)
      ensures pages == old(pages) && selectedPageId == old(selectedPageId) && isEditing == old(isEditing)
    {
      editedContent := Some(text);
    }

    /** The textarea's `onBlur`, `updateContent(editedContent)`: the selected page
        stores the draft, and the editor keeps showing it. */
    method BlurEditor()
      modifies this
      ensures pages == Pages.UpdateContent(old(pages), old(selectedPageId), old(editedContent))
      ensures editedContent == old(editedContent)
      ensures selectedPageId == old(selectedPageId) && isEditing == old(isEditing)
      ensures old(SelectionValid()) ==> SelectionValid()
    {
      UpdateContent(editedContent);
    }

    /** `toggleEditMode`: leaving the editor saves the draft into the selected page
        (as `BlurEditor` does); entering it changes nothing else. */
    method ToggleEditMode()
      modifies this
      ensures isEditing == !old(isEditing)
      ensures old(isEditing) ==>
        pages == Pages.UpdateContent(old(pages), old(selectedPageId), old(editedContent))
      ensures !old(isEditing) ==> pages == old(pages)
      ensures editedContent == old(editedContent) && selectedPageId == old(selectedPageId)
      ensures old(SelectionValid()) ==> SelectionValid()
    {
      if isEditing {
        isEditing := false;
        UpdateContent(editedContent);
      } else {
        isEditing := true;
      }
    }

    /** A click on a page: `editing` is true for the sidebar entry (which opens the
        editor) and false for a search result (which shows the rendered page). Only
        the selection and the mode are assigned; when the selection moves to another
        page that exists, `selectedPage` is a new object and the editor takes that
        page's content, while re-selecting the current page leaves the draft alone. */
    method Select(id: int, editing: bool)
      modifies this
      ensures pages == old(pages) && selectedPageId == id && isEditing == editing
      ensures id != old(selectedPageId) && HasId(pages, id) ==>
        editedContent == Find(pages, id).value.content
      ensures !(id != old(selectedPageId) && HasId(pages, id)) ==> editedContent == old(editedContent)
      ensures HasId(pages, id) ==> SelectionValid()
    {
      var moved := id != selectedPageId;
      selectedPageId := id;
      isEditing := editing;
      if moved {
        SyncEditor();
      }
    }

    /** `addNewPage` once the server has created the page it was sent
        (`Untitled ${pages.length + 1}`, empty content) under the id `newId`: the page
        is appended, selected, and the editor opened. The selection then names a new
        object, so the editor shows its empty content; only when `newId` was already
        taken does `find` keep answering with the older page. */
    method AddNewPage(newId: int)
      modifies this
      ensures pages == old(pages) + [Page(newId, NewPageTitle(|old(pages)|), Some(""), false)]
      ensures selectedPageId == newId && isEditing
      ensures !old(HasId(pages, newId)) ==> editedContent == Some("")
      ensures old(HasId(pages, newId)) && old(selectedPageId) != newId ==>
        editedContent == Find(old(pages), newId).value.content
      ensures old(HasId(pages, newId)) && old(selectedPageId) == newId ==>
        editedContent == old(editedContent)
      ensures SelectionValid()
      ensures old(UniqueIds(pages)) && !old(HasId(pages, newId)) ==> UniqueIds(pages)
    {
      var newPage := Page(newId, NewPageTitle(|pages|), Some(""), false);
      var same := selectedPageId == newId && HasId(pages, newId);
      FindAppend(pages, newPage);
      pages := pages + [newPage];
      selectedPageId := newId;
      isEditing := true;
      assert pages[|pages| - 1].id == newId;
      if !same {
        SyncEditor();
      }
    }

    /** `deletePage(id)`: `confirmed` is the answer to the confirmation dialog and
        `status` the HTTP status of the DELETE request. Only a 204 answer changes the
        state: the page goes, and if it was selected the selection falls back to the
        first remaining page, whose content the editor then shows, or to 0 with an
        empty editor when none remains. */
    method DeletePage(id: int, confirmed: bool, status: int)
      modifies this
      ensures isEditing == old(isEditing)
      ensures !(confirmed && status == 204) ==>
        pages == old(pages) && selectedPageId == old(selectedPageId) && editedContent == old(editedContent)
      ensures confirmed && status == 204 ==>
        && pages == RemoveId(old(pages), id)
        && (id != old(selectedPageId) ==>
              selectedPageId == old(selectedPageId) && editedContent == old(editedContent))
        && (id == old(selectedPageId) && pages != [] ==>
              selectedPageId == pages[0].id && editedContent == pages[0].content)
        && (id == old(selectedPageId) && pages == [] ==>
              selectedPageId == 0 && editedContent == Some(""))
      ensures old(SelectionValid()) ==> SelectionValid()
    {
      if !confirmed {
        return;
      }
      var ok := 200 <= status < 300;
      if ok && status == 204 {
        var updatedPages := RemoveId(pages, id);
        if id == selectedPageId {
          if |updatedPages| > 0 {
            pages := updatedPages;
            selectedPageId := updatedPages[0].id;
            SyncEditor();
            return;
          } else {
            selectedPageId := 0;
            editedContent := Some("");
          }
        } else if HasId(pages, selectedPageId) {
          var i :| 0 <= i < |pages| && pages[i].id == selectedPageId;
          assert pages[i] in updatedPages;
        }
        pages := updatedPages;
      }
    }
  }

  /** Two lists with the same ids carry the same selection. */
  lemma IdsKeepSelection(a: seq<Page>, b: seq<Page>, id: int)
    requires Ids(a) == Ids(b)
    ensures HasId(a, id) ==> HasId(b, id)
  {
    if HasId(a, id) {
      var i :| 0 <= i < |a| && a[i].id == id;
      assert Ids(a)[i] == Ids(b)[i];
    }
  }
}

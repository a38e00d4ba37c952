/** The save-to-library dialog: a form with the item label, the chosen
    category or a new category's name and colour, and the validation that
    decides what reaches the application's save handler. */
module SaveModal {
  import opened StorageTypes
  import opened Text
  import App

  /** The colour a new category starts with: blue for drawing tabs, purple
      for LLM tabs. */
  function DefaultColor(mode: App.Mode): ColorType {
    if mode == App.Drawing then Blue else Purple
  }

  /** What handleSave does: one of the two alerts, or the call to onSave
      with its arguments. */
  datatype SaveOutcome =
    | LabelMissing
    | NameMissing
    | Request(target: App.SaveTarget, labelText: string, name: Option<string>, color: Option<ColorType>)

  /** handleSave on the form's fields. */
  function Validate(itemLabel: string, isCreatingNew: bool, newCategoryName: string,
                    newCategoryColor: ColorType, selectedCategory: int): (r: SaveOutcome)
  {
    if IsBlank(itemLabel) then LabelMissing
    else if isCreatingNew then
      if IsBlank(newCategoryName) then NameMissing
      else Request(App.NewCategory, Trim(itemLabel), Some(Trim(newCategoryName)), Some(newCategoryColor))
    else Request(App.Existing(selectedCategory), Trim(itemLabel), None, None)
  }

  /** The label alert is shown exactly for a blank label, the name alert
      exactly for a blank new-category name with a label present; every
      request carries a trimmed label that is not empty, and either 'new'
      with the trimmed, non-empty name and the chosen colour, or the chosen
      index alone. */
  lemma ValidateOutcomes(itemLabel: string, isCreatingNew: bool, newCategoryName: string,
                         newCategoryColor: ColorType, selectedCategory: int)
    ensures var r := Validate(itemLabel, isCreatingNew, newCategoryName, newCategoryColor, selectedCategory);
      && (r.LabelMissing? <==> IsBlank(itemLabel))
      && (r.NameMissing? <==> !IsBlank(itemLabel) && isCreatingNew && IsBlank(newCategoryName))
      && (r.Request? ==>
            && r.labelText == Trim(itemLabel) && r.labelText != "" && Trim(r.labelText) == r.labelText
            && (isCreatingNew ==>
                  && r.target == App.NewCategory
                  && r.name == Some(Trim(newCategoryName)) && r.name.value != ""
                  && Trim(r.name.value) == r.name.value
                  && r.color == Some(newCategoryColor))
            && (!isCreatingNew ==>
                  r.target == App.Existing(selectedCategory) && r.name.None? && r.color.None?))
  {
    if !IsBlank(itemLabel) {
      TrimIdempotent(itemLabel);
      NotBlankTrimNonEmpty(itemLabel);
    }
    if !IsBlank(newCategoryName) {
      TrimIdempotent(newCategoryName);
      NotBlankTrimNonEmpty(newCategoryName);
    }
  }

  /** Whatever the dialog sends, the save handler does not throw: every
      request builds a library, and a new category holds exactly the new
      item. */
  lemma RequestIsAccepted(lib: Library, content: string, itemLabel: string, isCreatingNew: bool,
                          newCategoryName: string, newCategoryColor: ColorType, selectedCategory: int)
    ensures var r := Validate(itemLabel, isCreatingNew, newCategoryName, newCategoryColor, selectedCategory);
      r.Request? ==>
        var saved := App.SaveToLibraryEdit(lib, r.target, r.labelText, content, r.name, r.color);
        && saved.Some?
        && (isCreatingNew ==>
              saved.value == lib + [LibraryCategory(Trim(newCategoryName), newCategoryColor,
                                                    [LibraryItem(Trim(itemLabel), content, None)])])
  {
    ValidateOutcomes(itemLabel, isCreatingNew, newCategoryName, newCategoryColor, selectedCategory);
    var r := Validate(itemLabel, isCreatingNew, newCategoryName, newCategoryColor, selectedCategory);
    if r.Request? {
      App.SaveToLibraryOutcomes(lib, r.target, r.labelText, content, r.name, r.color);
    }
  }

  class SaveForm {
    var selectedCategory: int
    var itemLabel: string
    var isCreatingNew: bool
    var newCategoryName: string
    var newCategoryColor: ColorType

    /** The fields the dialog resets whenever it opens. */
    predicate IsReset(defaultName: string, mode: App.Mode)
      reads this
    {
      && selectedCategory == 0
      && itemLabel == defaultName
      && !isCreatingNew
      && newCategoryName == ""
      && newCategoryColor == DefaultColor(mode)
    }

    constructor (defaultName: string, mode: App.Mode)
      ensures IsReset(defaultName, mode)
    {
      selectedCategory := 0;
      itemLabel := defaultName;
      isCreatingNew := false;
      newCategoryName := "";
      newCategoryColor := DefaultColor(mode);
    }

    /** The effect run when the dialog opens. */
    method Open(defaultName: string, mode: App.Mode)
      modifies this
      ensures IsReset(defaultName, mode)
    {
      itemLabel := defaultName;
      selectedCategory := 0;
      isCreatingNew := false;
      newCategoryName := "";
      newCategoryColor := DefaultColor(mode);
    }

    /** handleSave: the label alert when the label is blank, the name alert
        when a new category has a blank name, and otherwise the request with
        the trimmed label and either the new category's trimmed name and
        colour or the chosen index. */
    method HandleSave() returns (outcome: SaveOutcome)
      ensures outcome.LabelMissing? <==> IsBlank(itemLabel)
      ensures outcome.NameMissing? <==> !IsBlank(itemLabel) && isCreatingNew && IsBlank(newCategoryName)
      ensures outcome.Request? ==>
        outcome.labelText == Trim(itemLabel) && outcome.labelText != "" &&
        Trim(outcome.labelText) == outcome.labelText
      ensures outcome.Request? && isCreatingNew ==>
        && outcome.target == App.NewCategory
        && outcome.name == Some(Trim(newCategoryName)) && outcome.name.value != ""
        && Trim(outcome.name.value) == outcome.name.value
        && outcome.color == Some(newCategoryColor)
      ensures outcome.Request? && !isCreatingNew ==>
        outcome.target == App.Existing(selectedCategory) && outcome.name.None? && outcome.color.None?
    {
      outcome := Validate(itemLabel, isCreatingNew, newCategoryName, newCategoryColor, selectedCategory);
      ValidateOutcomes(itemLabel, isCreatingNew, newCategoryName, newCategoryColor, selectedCategory);
    }
  }

  /** Opening the dialog on a tab and saving at once: the request, if any,
      names category 0 and carries the trimmed tab name as its label. */
  method OpenThenSave(form: SaveForm, defaultName: string, mode: App.Mode) returns (outcome: SaveOutcome)
    modifies form
    ensures IsBlank(defaultName) ==> outcome == LabelMissing
    ensures !IsBlank(defaultName) ==> outcome == Request(App.Existing(0), Trim(defaultName), None, None)
  {
    form.Open(defaultName, mode);
    outcome := form.HandleSave();
  }
}

/**
 * The profile and experience editor of the admin area: the profile form,
 * the experience list, and the experience modal with its form.
 */
module ProfileAdmin {
  import opened Wrappers
  import Records
  import PortfolioData

  type Experience = PortfolioData.Experience
  type ExperienceFields = PortfolioData.ExperienceFields

  const EmptyExperienceForm: ExperienceFields := PortfolioData.ExperienceFields("", "", "", "")

  class ProfileEditor {
    var profile: PortfolioData.Profile
    var experiences: seq<Experience>
    var isExpModalOpen: bool
    var editingExp: Option<Experience>
    var expFormData: ExperienceFields

    /** The page's initial state over the stored profile and experiences. */
    constructor (storedProfile: PortfolioData.Profile, stored: seq<Experience>)
      ensures profile == storedProfile && experiences == stored
      ensures !isExpModalOpen && editingExp == None && expFormData == EmptyExperienceForm
    {
      profile := storedProfile;
      experiences := stored;
      isExpModalOpen := false;
      editingExp := None;
      expFormData := EmptyExperienceForm;
    }

    /** `handleProfileChange`: the input's field takes its value; every other field is kept. */
    method HandleProfileChange(field: PortfolioData.ProfileField, value: string)
      modifies this
      ensures profile == PortfolioData.Set(old(profile), field, value)
      ensures PortfolioData.Get(profile, field) == value
      ensures forall g :: g != field ==> PortfolioData.Get(profile, g) == PortfolioData.Get(old(profile), g)
      ensures experiences == old(experiences) && isExpModalOpen == old(isExpModalOpen)
      ensures editingExp == old(editingExp) && expFormData == old(expFormData)
    {
      profile := PortfolioData.Set(profile, field, value);
    }

    /**
     * `openExpModal(exp?)`: with an entry, load its four fields and edit it;
     * without, clear the form for a new entry.
     */
    method OpenExpModal(exp: Option<Experience>)
      modifies this
      ensures isExpModalOpen && editingExp == exp
      ensures exp.Some? ==> expFormData == exp.value.fields
      ensures exp.None? ==> expFormData == EmptyExperienceForm
      ensures profile == old(profile) && experiences == old(experiences)
    {
      match exp {
        case Some(e) =>
          editingExp := exp;
          expFormData := PortfolioData.ExperienceFields(e.fields.company, e.fields.role, e.fields.period, e.fields.description);
        case None =>
          editingExp := None;
          expFormData := EmptyExperienceForm;
      }
      isExpModalOpen := true;
    }

    /** `closeExpModal`: close and stop editing; the form keeps its contents. */
    method CloseExpModal()
      modifies this
      ensures !isExpModalOpen && editingExp == None
      ensures profile == old(profile) && experiences == old(experiences) && expFormData == old(expFormData)
    {
      isExpModalOpen := false;
      editingExp := None;
    }

    /** An `onChange` of the experience form: one of its four fields takes the typed text. */
    method SetExpForm(form: ExperienceFields)
      modifies this
      ensures expFormData == form
      ensures profile == old(profile) && experiences == old(experiences)
      ensures isExpModalOpen == old(isExpModalOpen) && editingExp == old(editingExp)
    {
      expFormData := form;
    }

    /**
     * `handleExpSubmit`: while editing, every entry with the edited id becomes
     * the form under that id; otherwise the form is appended under the next
     * free id. Then the modal closes.
     */
    method HandleExpSubmit()
      modifies this
      ensures old(editingExp).Some? ==>
                experiences == Records.ReplaceById(old(experiences), old(editingExp).value.id, old(expFormData))
      ensures old(editingExp).None? ==> experiences == Records.AddRecord(old(experiences), old(expFormData))
      ensures Records.UniqueIds(old(experiences)) ==> Records.UniqueIds(experiences)
      ensures !isExpModalOpen && editingExp == None
      ensures profile == old(profile) && expFormData == old(expFormData)
    {
      match editingExp {
        case Some(editing) =>
          Records.ReplaceKeepsIds(experiences, editing.id, expFormData);
          experiences := Records.ReplaceById(experiences, editing.id, expFormData);
        case None =>
          experiences := Records.AddRecord(experiences, expFormData);
      }
      CloseExpModal();
    }

    /** `handleExpDelete`: when confirmed, drop every entry with the id; otherwise nothing. */
    method HandleExpDelete(id: int, confirmed: bool)
      modifies this
      ensures confirmed ==> experiences == Records.RemoveById(old(experiences), id)
      ensures !confirmed ==> experiences == old(experiences)
      ensures Records.UniqueIds(old(experiences)) ==> Records.UniqueIds(experiences)
      ensures profile == old(profile) && isExpModalOpen == old(isExpModalOpen)
      ensures editingExp == old(editingExp) && expFormData == old(expFormData)
    {
      if confirmed {
        if Records.UniqueIds(experiences) {
          Records.RemoveKeepsUnique(experiences, id);
        }
        experiences := Records.RemoveById(experiences, id);
      }
    }
  }
}

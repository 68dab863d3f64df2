/**
 * The project editor of the admin area: the project list it edits, the modal
 * with its form, and the pending text of the tag input.
 */
module ProjectsAdmin {
  import opened Wrappers
  import Records
  import PortfolioData

  type Project = PortfolioData.Project
  type ProjectFields = PortfolioData.ProjectFields

  /** The form of a new project: every text empty, no tags, an empty video link. */
  const EmptyForm: ProjectFields := PortfolioData.ProjectFields("", "", [], "", Some(""), "", "")

  /** The form for editing `p`: its fields, with a missing or empty video link shown as `''`. */
  function FormOf(p: Project): (form: ProjectFields)
    ensures form.videoUrl.Some?
    ensures form.(videoUrl := p.fields.videoUrl) == p.fields
    ensures form.videoUrl.value == "" <==> p.fields.videoUrl.None? || p.fields.videoUrl.value == ""
    ensures p.fields.videoUrl.Some? ==> form.videoUrl == p.fields.videoUrl
    ensures p.fields.videoUrl.None? ==> form.videoUrl == Some("")
  {
    var video := match p.fields.videoUrl case Some(v) => v case None => "";
    p.fields.(videoUrl := Some(video))
  }

  class ProjectsEditor {
    var projects: seq<Project>
    var isModalOpen: bool
    var editingProject: Option<Project>
    var formData: ProjectFields
    var techInput: string

    /** The page's initial state over the stored projects. */
    constructor (stored: seq<Project>)
      ensures projects == stored
      ensures !isModalOpen && editingProject == None && formData == EmptyForm && techInput == ""
    {
      projects := stored;
      isModalOpen := false;
      editingProject := None;
      formData := EmptyForm;
      techInput := "";
    }

    /**
     * `openModal(project?)`: with a project, load its fields and edit it;
     * without, clear the form for a new project. The tag input is left as it was.
     */
    method OpenModal(project: Option<Project>)
      modifies this
      ensures isModalOpen
      ensures editingProject == project
      ensures project.Some? ==> formData == FormOf(project.value)
      ensures project.None? ==> formData == EmptyForm
      ensures projects == old(projects) && techInput == old(techInput)
    {
      match project {
        case Some(p) =>
          editingProject := project;
          formData := FormOf(p);
        case None =>
          editingProject := None;
          formData := EmptyForm;
      }
      isModalOpen := true;
    }

    /** `closeModal`: close, stop editing, clear the tag input; the form keeps its contents. */
    method CloseModal()
      modifies this
      ensures !isModalOpen && editingProject == None && techInput == ""
      ensures projects == old(projects) && formData == old(formData)
    {
      isModalOpen := false;
      editingProject := None;
      techInput := "";
    }

    /**
     * `handleSubmit`: while editing, every project with the edited id becomes
     * the form under that id; otherwise the form is appended under the next
     * free id. Then the modal closes.
     */
    method HandleSubmit()
      modifies this
      ensures old(editingProject).Some? ==>
                projects == Records.ReplaceById(old(projects), old(editingProject).value.id, old(formData))
      ensures old(editingProject).None? ==> projects == Records.AddRecord(old(projects), old(formData))
      ensures Records.UniqueIds(old(projects)) ==> Records.UniqueIds(projects)
      ensures !isModalOpen && editingProject == None && techInput == "" && formData == old(formData)
    {
      match editingProject {
        case Some(editing) =>
          Records.ReplaceKeepsIds(projects, editing.id, formData);
          projects := Records.ReplaceById(projects, editing.id, formData);
        case None =>
          projects := Records.AddRecord(projects, formData);
      }
      CloseModal();
    }

    /** `handleDelete`: when confirmed, drop every project with the id; otherwise nothing. */
    method HandleDelete(id: int, confirmed: bool)
      modifies this
      ensures confirmed ==> projects == Records.RemoveById(old(projects), id)
      ensures !confirmed ==> projects == old(projects)
      ensures Records.UniqueIds(old(projects)) ==> Records.UniqueIds(projects)
      ensures isModalOpen == old(isModalOpen) && editingProject == old(editingProject)
      ensures formData == old(formData) && techInput == old(techInput)
    {
      if confirmed {
        if Records.UniqueIds(projects) {
          Records.RemoveKeepsUnique(projects, id);
        }
        projects := Records.RemoveById(projects, id);
      }
    }

    /** An `onChange` of the project form: one of its fields takes the typed text. */
    method SetFormData(form: ProjectFields)
      modifies this
      ensures formData == form
      ensures projects == old(projects) && techInput == old(techInput)
      ensures isModalOpen == old(isModalOpen) && editingProject == old(editingProject)
    {
      formData := form;
    }

    /** The tag input's `onChange`. */
    method SetTechInput(text: string)
      modifies this
      ensures techInput == text
      ensures projects == old(projects) && formData == old(formData)
      ensures isModalOpen == old(isModalOpen) && editingProject == old(editingProject)
    {
      techInput := text;
    }

    /**
     * `addTech`: append the trimmed input and clear it when it is not blank
     * and not already a tag; otherwise change nothing.
     */
    method AddTech()
      modifies this
      ensures var tag := Records.AcceptedTag(old(formData).techStack, old(techInput));
        && (tag.Some? ==> formData == old(formData).(techStack := old(formData).techStack + [tag.value])
                          && techInput == "")
        && (tag.None? ==> formData == old(formData) && techInput == old(techInput))
      ensures Records.Distinct(old(formData).techStack) ==> Records.Distinct(formData.techStack)
      ensures projects == old(projects) && isModalOpen == old(isModalOpen)
      ensures editingProject == old(editingProject)
    {
      var tag := Records.AcceptedTag(formData.techStack, techInput);
      if tag.Some? {
        formData := formData.(techStack := formData.techStack + [tag.value]);
        techInput := "";
      }
    }

    /** `removeTech`: drop every occurrence of the tag, keeping the others in order. */
    method RemoveTech(tech: string)
      modifies this
      ensures formData == old(formData).(techStack := Records.Without(old(formData).techStack, tech))
      ensures tech !in formData.techStack
      ensures Records.Distinct(old(formData).techStack) ==> Records.Distinct(formData.techStack)
      ensures projects == old(projects) && techInput == old(techInput)
      ensures isModalOpen == old(isModalOpen) && editingProject == old(editingProject)
    {
      if Records.Distinct(formData.techStack) {
        Records.WithoutDistinct(formData.techStack, tech);
      }
      formData := formData.(techStack := Records.Without(formData.techStack, tech));
    }
  }
}

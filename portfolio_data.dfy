/**
 * The shapes the site's shared data store holds: projects, experiences and
 * the owner's profile, and the one generic operation on a profile, replacing
 * the field an input names.
 */
module PortfolioData {
  import opened Wrappers
  import Records

  /** A project without its id; `videoUrl` is optional. */
  datatype ProjectFields = ProjectFields(
    title: string,
    description: string,
    techStack: seq<string>,
    imageUrl: string,
    videoUrl: Option<string>,
    demoLink: string,
    repoLink: string)

  type Project = Records.Record<ProjectFields>

  /** A work-history entry without its id. */
  datatype ExperienceFields = ExperienceFields(company: string, role: string, period: string, description: string)

  type Experience = Records.Record<ExperienceFields>

  datatype Profile = Profile(
    name: string,
    role: string,
    tagline: string,
    description: string,
    profileImage: string,
    email: string,
    github: string,
    linkedin: string,
    twitter: string)

  /** The keys of a profile; each input of the profile form names one by its `name` attribute. */
  datatype ProfileField =
    | Name | Role | Tagline | Description | ProfileImage | Email | Github | Linkedin | Twitter

  function Get(p: Profile, f: ProfileField): string {
    match f
    case Name => p.name
    case Role => p.role
    case Tagline => p.tagline
    case Description => p.description
    case ProfileImage => p.profileImage
    case Email => p.email
    case Github => p.github
    case Linkedin => p.linkedin
    case Twitter => p.twitter
  }

  /** `{ ...profile, [key]: value }`: the named field gets the value and no other field changes. */
  function Set(p: Profile, f: ProfileField, value: string): (r: Profile)
    ensures Get(r, f) == value
    ensures forall g :: g != f ==> Get(r, g) == Get(p, g)
  {
    match f
    case Name => p.(name := value)
    case Role => p.(role := value)
    case Tagline => p.(tagline := value)
    case Description => p.(description := value)
    case ProfileImage => p.(profileImage := value)
    case Email => p.(email := value)
    case Github => p.(github := value)
    case Linkedin => p.(linkedin := value)
    case Twitter => p.(twitter := value)
  }

  /** Two profiles that agree on every key are the same profile. */
  lemma ProfileExtensional(p: Profile, q: Profile)
    requires forall g :: Get(p, g) == Get(q, g)
    ensures p == q
  {
    assert Get(p, Name) == Get(q, Name) && Get(p, Role) == Get(q, Role);
    assert Get(p, Tagline) == Get(q, Tagline) && Get(p, Description) == Get(q, Description);
    assert Get(p, ProfileImage) == Get(q, ProfileImage) && Get(p, Email) == Get(q, Email);
    assert Get(p, Github) == Get(q, Github) && Get(p, Linkedin) == Get(q, Linkedin);
    assert Get(p, Twitter) == Get(q, Twitter);
  }

  /** Writing back a field's own value changes nothing. */
  lemma SetOwnValue(p: Profile, f: ProfileField)
    ensures Set(p, f, Get(p, f)) == p
  {
    ProfileExtensional(Set(p, f, Get(p, f)), p);
  }

  /** A second write to the same field overrides the first. */
  lemma SetTwice(p: Profile, f: ProfileField, v: string, w: string)
    ensures Set(Set(p, f, v), f, w) == Set(p, f, w)
  {
    ProfileExtensional(Set(Set(p, f, v), f, w), Set(p, f, w));
  }

  /** Writes to different fields commute. */
  lemma SetCommutes(p: Profile, f: ProfileField, v: string, g: ProfileField, w: string)
    requires f != g
    ensures Set(Set(p, f, v), g, w) == Set(Set(p, g, w), f, v)
  {
    ProfileExtensional(Set(Set(p, f, v), g, w), Set(Set(p, g, w), f, v));
  }
}

/** The built-in gallery content (src/data/defaultProjects.ts) that both the
    admin console and the public gallery fall back to. */
module Defaults {
  import opened Common
  import opened Api

  const DefaultProjects: seq<Project> := [
    Project(1, "fivecorner", "Created a streetwear brand with identic design.", "2024", "Branding",
            None, None, Some("image")),
    Project(2, "Web Platform", "Interface and UX design for a project management platform.", "2024", "Web Design",
            None, None, Some("image")),
    Project(3, "Mobile App", "UI/UX design for a mobile app focused on simplicity and usability.", "2023", "UI/UX",
            None, None, Some("image")),
    Project(4, "Showreel", "Motion design showreel showcasing various animation projects.", "2024", "Motion",
            None, Some("http://commondatastorage.googleapis.com/gtv-videos-bucket/sample/ForBiggerBlazes.mp4"),
            Some("video"))
  ]

  /** The fallback content is never empty and its ids are distinct. */
  lemma DefaultProjectsWellFormed()
    ensures |DefaultProjects| == 4
    ensures forall i, j :: 0 <= i < j < |DefaultProjects| ==> DefaultProjects[i].id != DefaultProjects[j].id
  {
  }
}

/** The entities of submissions/models.py: one submission per team and one
    judging row per (judge, submission). The score and feedback text of a
    judging are not modelled. */
module SubmissionsModels {
  import opened Wrappers
  import opened AccountsModels
  import opened TeamsModels

  type SubmissionId = nat

  /** The fields a team leader fills in through the submission form. */
  datatype SubmissionFields = SubmissionFields(
    projectTitle: string,
    projectDescription: string,
    repoLink: Option<string>,
    demoLink: Option<string>,
    problemStatement: Option<nat>)

  datatype Submission = Submission(team: TeamId, fields: SubmissionFields)

  datatype Judging = Judging(judge: UserId, submission: SubmissionId)
}

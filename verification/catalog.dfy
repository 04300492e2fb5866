/** The hard-coded command catalog the page shows. */
module Catalog {
  import opened Optional

  /** One catalog entry. `editable` and `placeholder` are absent on the
      entries without a placeholder; absent `editable` is falsy. */
  datatype Command = Command(
    name: string,
    command: string,
    description: string,
    editable: bool,
    placeholder: Option<string>)

  /** A titled group of entries, shown in order. */
  datatype Category = Category(category: string, items: seq<Command>)

  /** An entry without a placeholder. */
  function Fixed(name: string, command: string, description: string): Command {
    Command(name, command, description, false, None)
  }

  /** An entry whose command holds a placeholder the user can fill in. */
  function Editable(name: string, command: string, description: string, placeholder: string): Command {
    Command(name, command, description, true, Some(placeholder))
  }

  /** The catalog, in display order. Each category and each entry is a
      constant of its own, so a proof about one entry need not unfold the
      others. */
  const Commands: seq<Category> := [
    Category("Basic Commands", BasicCommands),
    Category("Branch Operations", BranchOperations),
    Category("Remote Operations", RemoteOperations),
    Category("Advanced Operations", AdvancedOperations),
    Category("Configuration", Configuration)
  ]

  /** The entries of "Basic Commands". */
  const BasicCommands: seq<Command> :=
    [InitializeRepository, StageChanges, StageAllChanges, CommitChanges, AmendLastCommit, ViewStatus]

  const InitializeRepository: Command :=
    Fixed("Initialize Repository", "git init",
          "Create an empty Git repository or reinitialize an existing one")

  const StageChanges: Command :=
    Editable("Stage Changes", "git add <file-name>",
             "Add file contents to the staging area", "file-name")

  const StageAllChanges: Command :=
    Fixed("Stage All Changes", "git add .",
          "Add all modified and new files to the staging area")

  const CommitChanges: Command :=
    Editable("Commit Changes", "git commit -m \"<message>\"",
             "Record changes to the repository", "commit message")

  const AmendLastCommit: Command :=
    Editable("Amend Last Commit", "git commit --amend -m \"<new-message>\"",
             "Modify the last commit with new changes and/or message", "new message")

  const ViewStatus: Command :=
    Fixed("View Status", "git status",
          "Show the status of working directory and staging area")

  /** The entries of "Branch Operations". */
  const BranchOperations: seq<Command> :=
    [ListBranches, CreateBranch, SwitchBranch, CreateSwitchBranch, DeleteBranch, RenameBranch]

  const ListBranches: Command :=
    Fixed("List Branches", "git branch", "List all local branches")

  const CreateBranch: Command :=
    Editable("Create Branch", "git branch <branch-name>",
             "Create a new branch", "branch-name")

  const SwitchBranch: Command :=
    Editable("Switch Branch", "git checkout <branch-name>",
             "Switch to a different branch", "branch-name")

  const CreateSwitchBranch: Command :=
    Editable("Create & Switch Branch", "git checkout -b <branch-name>",
             "Create a new branch and switch to it", "branch-name")

  const DeleteBranch: Command :=
    Editable("Delete Branch", "git branch -d <branch-name>",
             "Delete a branch", "branch-name")

  const RenameBranch: Command :=
    Editable("Rename Branch", "git branch -m <new-branch-name>",
             "Rename the current branch", "new-branch-name")

  /** The entries of "Remote Operations". */
  const RemoteOperations: seq<Command> :=
    [AddRemote, SetUpstreamUrl, PushChanges, SetUpstreamBranch, PullChanges, RemoveRemote]

  const AddRemote: Command :=
    Editable("Add Remote", "git remote add <remote-name> <repository-url>",
             "Add a new remote repository", "remote-name repository-url")

  const SetUpstreamUrl: Command :=
    Editable("Set Upstream URL", "git remote set-url <remote-name> <new-url>",
             "Change the URL of an existing remote", "remote-name new-url")

  const PushChanges: Command :=
    Editable("Push Changes", "git push <remote-name> <branch-name>",
             "Upload local repository content to a remote repository", "remote-name branch-name")

  const SetUpstreamBranch: Command :=
    Editable("Set Upstream Branch", "git push -u <remote-name> <branch-name>",
             "Push and set the upstream branch", "remote-name branch-name")

  const PullChanges: Command :=
    Editable("Pull Changes", "git pull <remote-name> <branch-name>",
             "Fetch and integrate with another repository or branch", "remote-name branch-name")

  const RemoveRemote: Command :=
    Editable("Remove Remote", "git remote remove <remote-name>",
             "Remove a remote repository", "remote-name")

  /** The entries of "Advanced Operations". */
  const AdvancedOperations: seq<Command> :=
    [InteractiveRebase, RebaseOntoBranch, CherryPick, ResetCommit]

  const InteractiveRebase: Command :=
    Editable("Interactive Rebase", "git rebase -i HEAD~<number>",
             "Interactively rebase the last N commits", "number")

  const RebaseOntoBranch: Command :=
    Editable("Rebase onto Branch", "git rebase <branch-name>",
             "Rebase current branch onto another branch", "branch-name")

  const CherryPick: Command :=
    Editable("Cherry Pick", "git cherry-pick <commit-hash>",
             "Apply changes from a specific commit", "commit-hash")

  const ResetCommit: Command :=
    Editable("Reset Commit", "git reset --soft <commit-hash>",
             "Reset to a specific commit while keeping changes in staging", "commit-hash")

  /** The entries of "Configuration". */
  const Configuration: seq<Command> :=
    [SetUsername, SetEmail, ListConfiguration, SetDefaultEditor]

  const SetUsername: Command :=
    Editable("Set Username", "git config --global user.name \"<username>\"",
             "Set your Git username", "username")

  const SetEmail: Command :=
    Editable("Set Email", "git config --global user.email \"<email>\"",
             "Set your Git email", "email")

  const ListConfiguration: Command :=
    Fixed("List Configuration", "git config --list", "Show all configuration settings")

  const SetDefaultEditor: Command :=
    Editable("Set Default Editor", "git config --global core.editor \"<editor-name>\"",
             "Set the default editor for Git", "editor-name")
}

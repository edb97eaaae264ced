# FU News Management — a verified model of the service core

FU News Management is an ASP.NET MVC news site. Staff write news articles and
file them under categories and tags. Administrators manage staff and lecturer
accounts. Lecturers and visitors read the published articles. This project
models the parts of the system that decide what the site stores and shows:

* **The data model.** `entities.dfy` holds the five entities: accounts,
  categories, articles, tags and article–tag links. `store.dfy` holds the
  database as one `Store` object. It keeps four tables, the set of links and
  the next category key. Its invariant `Valid()` collects the key and
  foreign-key rules that the database context configures, and every write to
  the store keeps that invariant. A write that would break it (a duplicate
  key, a dangling reference, a restricted delete, a string too long for its
  column) is refused. That is how the model represents the database exception
  which the services catch and turn into `false`.
* **The repositories.** These are the queries and updates of the data-access
  layer. They are functions over the tables: ordering, filters, counts and
  look-ups. Updates of the link table are methods on the store.
* **The services.** These hold the validation and the write logic of the
  business layer. They are methods on the store: they check the input, then
  insert, replace or delete rows. Each one states what every table holds
  afterwards, on success and on failure. Where a service saves in two steps,
  this includes the state left behind when the second step fails.
  Article keys and account keys are generated as the maximum existing key
  plus one. Both generators are modelled with the source's 32-bit and 16-bit
  wrap-around. Category keys come from a `smallint` identity column, which
  refuses every insert once it would pass 32767.
* **The controllers.** These hold the request handling of the web layer. Each
  POST action is an ordered chain of checks, and the first failing check
  chooses the message shown to the user. The chains are stated as functions
  that return the first error message, and the action methods are proved to
  answer with exactly that message or to perform the service call.
  `AuthHelper.OnActionExecuting` is the role filter that guards the actions.
  It is a loop over the allowed roles, proved equal to a decision function.
  The report controller builds the statistics page.

The clock is a parameter: `now` is the current time in whole seconds, and
`monthAgo` is the same instant one calendar month earlier. Strings are
sequences of characters. `Option` stands for a C# reference or
`Nullable<T>` that may be null.

## Model

| member | source | states |
|---|---|---|
| Store.Store.constructor | HE186645/FUNewsManagement.DataAccess/Data/FUNewsManagementContext.cs:29-66 | a store can only be opened on tables that satisfy the key, foreign-key and link rules of the context |
| Store.Store.AddArticle | HE186645/FUNewsManagement.DataAccess/Data/FUNewsManagementContext.cs:38-54 | an article row is inserted exactly when its key is new and its category and author references exist; the tables and the invariant are otherwise unchanged |
| Store.Store.UpdateArticle | HE186645/FUNewsManagement.DataAccess/Data/FUNewsManagementContext.cs:38-54 | an existing article row is replaced in place when its references are valid; nothing else changes |
| Store.Store.RemoveArticle | HE186645/FUNewsManagement.DataAccess/Data/FUNewsManagementContext.cs:56-60 | deleting an article cascades to its tag links and to no other link |
| Store.Store.AddLinks | HE186645/FUNewsManagement.DataAccess/Data/FUNewsManagementContext.cs:29-66 | link rows are added only when they are pairwise distinct, not already present (composite key) and refer to an existing article and tag |
| Store.Store.RemoveLinks | HE186645/FUNewsManagement.DataAccess/Data/FUNewsManagementContext.cs:56-66 | removing link rows removes exactly those rows and keeps the invariant |
| Store.Store.AddCategory | HE186645/FUNewsManagement.DataAccess/Models/Category.cs:9-26 | a category gets the next identity value and is stored exactly when the identity is below the `smallint` limit, its columns fit and its parent exists (or is itself); below the limit the identity value is used up even when the row is refused, at the limit nothing changes |
| Store.Store.UpdateCategory | HE186645/FUNewsManagement.DataAccess/Data/FUNewsManagementContext.cs:32-36 | an existing category row is replaced in place when its columns fit and its parent exists |
| Store.Store.RemoveCategory | HE186645/FUNewsManagement.DataAccess/Data/FUNewsManagementContext.cs:32-42 | a category is deleted only when no article and no other category refers to it (restrict) |
| Store.Store.AddAccount | HE186645/FUNewsManagement.DataAccess/Models/SystemAccount.cs:9-25 | an account row is inserted exactly when its key is new and its columns fit |
| Store.Store.UpdateAccount | HE186645/FUNewsManagement.DataAccess/Models/SystemAccount.cs:13-25 | an existing account row is replaced in place when its columns fit |
| Store.Store.RemoveAccount | HE186645/FUNewsManagement.DataAccess/Data/FUNewsManagementContext.cs:44-54 | an account is deleted only when no article names it as author or updater (restrict) |
| Store.Store.AddTag | HE186645/FUNewsManagement.DataAccess/Models/Tag.cs:9-17 | a tag row is inserted exactly when its key is new and its columns fit |
| Store.Store.UpdateTag | HE186645/FUNewsManagement.DataAccess/Models/Tag.cs:13-17 | an existing tag row is replaced in place when its columns fit |
| Store.Store.RemoveTag | HE186645/FUNewsManagement.DataAccess/Data/FUNewsManagementContext.cs:62-66 | a tag is deleted only when no link refers to it |
| Store.InsertArticleOk | HE186645/FUNewsManagement.DataAccess/Data/FUNewsManagementContext.cs:38-54 | appending an article keeps the store consistent if and only if its key is new and its references exist |
| Store.RemoveCategoryOk | HE186645/FUNewsManagement.DataAccess/Data/FUNewsManagementContext.cs:32-42 | removing a category from a consistent store keeps it consistent if and only if no article and no other category refers to it |
| Store.RemoveTagOk | HE186645/FUNewsManagement.DataAccess/Data/FUNewsManagementContext.cs:62-66 | removing a tag keeps the store consistent if and only if no link refers to it |
| Store.CategoryOf | HE186645/FUNewsManagement.DataAccess/Data/FUNewsManagementContext.cs:38-42 | the navigation to an article's category is present exactly when its category key refers to an existing row, and then it is that row |
| Store.CreatorOf | HE186645/FUNewsManagement.DataAccess/Data/FUNewsManagementContext.cs:44-48 | the navigation to an article's author is present exactly when its author key refers to an existing account, and then it is that account |
| NewsTagRepository.TagsByArticleId | HE186645/FUNewsManagement.DataAccess/Repositories/NewsTagRepository.cs:12-18 | the links of one article, which together with the links of other articles partition the link table |
| NewsTagRepository.IsTagLinkedByArticle | HE186645/FUNewsManagement.DataAccess/Repositories/NewsTagRepository.cs:56-60 | a tag is linked to an article exactly when that pair is a row of the link table |
| NewsTagRepository.LinkedTagIds | HE186645/FUNewsManagement.DataAccess/Repositories/NewsTagRepository.cs:12-18 | the distinct keys of the existing tags linked to an article, each once |
| NewsTagRepository.LinkRows | HE186645/FUNewsManagement.DataAccess/Repositories/NewsTagRepository.cs:41-54 | one link row per requested tag key, in request order, all for the given article |
| NewsTagRepository.LinksFor | HE186645/FUNewsManagement.DataAccess/Repositories/NewsTagRepository.cs:41-54 | the set of link rows added for an article holds exactly the pairs of that article with a requested tag |
| NewsTagRepository.LinkRowsDistinct | HE186645/FUNewsManagement.DataAccess/Repositories/NewsTagRepository.cs:41-54 | the link rows of one batch are pairwise distinct if and only if the requested tag keys are |
| NewsTagRepository.LinksForCount | HE186645/FUNewsManagement.DataAccess/Repositories/NewsTagRepository.cs:41-54 | a batch of distinct tag keys adds exactly as many links as there are keys |
| NewsTagRepository.DeleteTagsFromArticle | HE186645/FUNewsManagement.DataAccess/Repositories/NewsTagRepository.cs:31-39 | removes every link of the article and no other, and changes nothing else |
| NewsTagRepository.AddTagsToArticle | HE186645/FUNewsManagement.DataAccess/Repositories/NewsTagRepository.cs:41-54 | an absent or empty tag list is a no-op; otherwise all links are saved together or, on a key or reference conflict, none is |
| NewsArticleRepository.ArticleWithDetails | HE186645/FUNewsManagement.DataAccess/Repositories/NewsArticleRepository.cs:24-33 | finds the article with the given key, and finds nothing exactly when the key is null or unknown |
| NewsArticleRepository.SearchArticles | HE186645/FUNewsManagement.DataAccess/Repositories/NewsArticleRepository.cs:35-62 | newest first; holds exactly the articles that match the term (title, headline, author name or category name) and the optional category and status filters, each as often as it occurs in the table |
| NewsArticleRepository.SearchWithoutFilters | HE186645/FUNewsManagement.DataAccess/Repositories/NewsArticleRepository.cs:42-61 | with no term and no filters the search returns every article, each once |
| NewsArticleRepository.ArticlesByCreator | HE186645/FUNewsManagement.DataAccess/Repositories/NewsArticleRepository.cs:64-71 | newest first; exactly the articles written by the given account, each as often as it occurs in the table |
| NewsArticleRepository.ArticlesByDateRange | HE186645/FUNewsManagement.DataAccess/Repositories/NewsArticleRepository.cs:73-81 | newest first; exactly the articles created inside the closed interval, each as often as it occurs |
| NewsArticleRepository.TagIdsOf | HE186645/FUNewsManagement.DataAccess/Repositories/NewsArticleRepository.cs:86-89 | the tag keys linked to the current article |
| NewsArticleRepository.HasAnyTagShares | HE186645/FUNewsManagement.DataAccess/Repositories/NewsArticleRepository.cs:94-98 | the "any of its tags is among the current tags" test holds exactly when the two articles share a tag |
| NewsArticleRepository.RelatedArticles | HE186645/FUNewsManagement.DataAccess/Repositories/NewsArticleRepository.cs:83-101 | at most three other published articles, each in the same category or sharing a tag, none more often than the table holds it; as many as there are related articles, up to three, so a related article is left out only when three others are returned |
| SystemAccountRepository.AccountByEmail | HE186645/FUNewsManagement.DataAccess/Repositories/SystemAccountRepository.cs:12-16 | an account with that email, or none exactly when no account has it |
| SystemAccountRepository.Login | HE186645/FUNewsManagement.DataAccess/Repositories/SystemAccountRepository.cs:18-22 | an account whose email and password both match, or none exactly when no account matches |
| SystemAccountRepository.EmailLookupsAgree | HE186645/FUNewsManagement.DataAccess/Repositories/SystemAccountRepository.cs:12-34 | the email look-up finds an account exactly when the email exists; a successful login implies the email exists; excluding an account can only remove matches |
| SystemAccountRepository.EmailExistsExcludingSelf | HE186645/FUNewsManagement.DataAccess/Repositories/SystemAccountRepository.cs:24-34 | when an account is excluded, its own email no longer counts as taken |
| SystemAccountRepository.SearchAccounts | HE186645/FUNewsManagement.DataAccess/Repositories/SystemAccountRepository.cs:36-53 | ordered by name; exactly the accounts matching the name-or-email term and the optional role, each as often as it occurs; all accounts when neither filter is given |
| SystemAccountRepository.AccountsByRole | HE186645/FUNewsManagement.DataAccess/Repositories/SystemAccountRepository.cs:61-67 | ordered by name; exactly the accounts with the given role, each as often as it occurs |
| SystemAccountRepository.AccountsByRoleIsSearch | HE186645/FUNewsManagement.DataAccess/Repositories/SystemAccountRepository.cs:36-67 | the by-role query returns the same list as a search with no term and that role |
| SystemAccountRepository.ChangePassword | HE186645/FUNewsManagement.DataAccess/Repositories/SystemAccountRepository.cs:69-82 | changes the password of the account only when it exists and the old password matches; otherwise nothing changes |
| CategoryRepository.AllCategories | HE186645/FUNewsManagement.DataAccess/Repositories/CategoryRepository.cs:12-19 | every category once, ordered by name |
| CategoryRepository.CategoryWithDetails | HE186645/FUNewsManagement.DataAccess/Repositories/CategoryRepository.cs:21-27 | the category with the given key, or none exactly when no category has it |
| CategoryRepository.SearchCategories | HE186645/FUNewsManagement.DataAccess/Repositories/CategoryRepository.cs:29-42 | ordered by name; exactly the categories whose name or description contains the term, each as often as it occurs; all categories for an empty term |
| CategoryRepository.SearchNarrowsListing | HE186645/FUNewsManagement.DataAccess/Repositories/CategoryRepository.cs:12-42 | a search returns a sub-multiset of the full category listing, and the whole listing when every category matches the term |
| CategoryRepository.ArticleCountByCategory | HE186645/FUNewsManagement.DataAccess/Repositories/CategoryRepository.cs:44-54 | the count is positive exactly when the category is used, and equals the table size exactly when every article uses it |
| CategoryRepository.ActiveCategories | HE186645/FUNewsManagement.DataAccess/Repositories/CategoryRepository.cs:56-62 | ordered by name; exactly the categories marked active, each as often as it occurs |
| CategoryRepository.ParentCategories | HE186645/FUNewsManagement.DataAccess/Repositories/CategoryRepository.cs:64-70 | ordered by name; exactly the top-level categories, each as often as it occurs |
| TagRepository.AllTags | HE186645/FUNewsManagement.DataAccess/Repositories/TagRepository.cs:12-19 | every tag once, ordered by name |
| TagRepository.TagWithArticles | HE186645/FUNewsManagement.DataAccess/Repositories/TagRepository.cs:21-28 | the tag with the given key, or none exactly when no tag has it |
| TagRepository.SearchTags | HE186645/FUNewsManagement.DataAccess/Repositories/TagRepository.cs:30-42 | table order for an empty term; otherwise ordered by name, exactly the tags whose name or note contains the term, each as often as it occurs |
| TagRepository.TagsByArticle | HE186645/FUNewsManagement.DataAccess/Repositories/TagRepository.cs:62-69 | ordered by name; exactly the tags linked to the article, each once |
| TagRepository.ArticleCountByTag | HE186645/FUNewsManagement.DataAccess/Repositories/TagRepository.cs:71-75 | the count is positive exactly when some link uses the tag |
| NewsArticleService.ParsedId | HE186645/FUNewsManagement.BusinessLogic/Services/NewsArticleService.cs:144-149 | a key that does not parse as a 32-bit integer counts as 0 |
| NewsArticleService.MaxParsedId | HE186645/FUNewsManagement.BusinessLogic/Services/NewsArticleService.cs:143-150 | the largest parsed key, within the 32-bit range |
| NewsArticleService.GenerateNewArticleId | HE186645/FUNewsManagement.BusinessLogic/Services/NewsArticleService.cs:136-153 | "1" for an empty table; never empty |
| NewsArticleService.GeneratedIdValue | HE186645/FUNewsManagement.BusinessLogic/Services/NewsArticleService.cs:136-153 | below the 32-bit maximum, the new key parses to the largest key plus one |
| NewsArticleService.NextIdIsSuccessor | HE186645/FUNewsManagement.BusinessLogic/Services/NewsArticleService.cs:143-152 | the new key is the decimal text of the largest key plus one |
| NewsArticleService.ParsedIdOfDecimal | HE186645/FUNewsManagement.BusinessLogic/Services/NewsArticleService.cs:146-152 | printing a 32-bit integer and parsing it back gives the integer |
| NewsArticleService.GeneratedIdFresh | HE186645/FUNewsManagement.BusinessLogic/Services/NewsArticleService.cs:136-153 | below the 32-bit maximum, the new key is unused and larger than every parsed key |
| NewsArticleService.GeneratedIdWraps | HE186645/FUNewsManagement.BusinessLogic/Services/NewsArticleService.cs:150-152 | at the 32-bit maximum the increment wraps to the minimum |
| NewsArticleService.CreatedRow | HE186645/FUNewsManagement.BusinessLogic/Services/NewsArticleService.cs:31-39 | the saved row has the new key, the creation time and a status defaulting to inactive; every other field is the caller's |
| NewsArticleService.UpdatedRow | HE186645/FUNewsManagement.BusinessLogic/Services/NewsArticleService.cs:60-66 | the saved row records the updater and the modification time; every other field is the caller's |
| NewsArticleService.CopyRow | HE186645/FUNewsManagement.BusinessLogic/Services/NewsArticleService.cs:166-180 | the copy has a new key, the title with " (Copy)" appended, the same text, source and category, inactive status, the copier as author and no update record |
| NewsArticleService.NewArticleHasNoLinks | HE186645/FUNewsManagement.DataAccess/Data/FUNewsManagementContext.cs:56-60 | a key that is not in the article table has no links |
| NewsArticleService.CreateArticle | HE186645/FUNewsManagement.BusinessLogic/Services/NewsArticleService.cs:27-54 | a blank headline is refused; otherwise the row with a generated key is saved, then the tags are linked; succeeds exactly when both saves do; a saved row stays when its links are refused, and links change only on success |
| NewsArticleService.UpdateArticle | HE186645/FUNewsManagement.BusinessLogic/Services/NewsArticleService.cs:56-84 | a blank headline is refused; succeeds exactly when the row is saved and the new links are accepted; then the row is replaced and the links become exactly the requested tags; when the row is saved but the links are refused, the new row stays and the old links are gone |
| NewsArticleService.DeleteArticle | HE186645/FUNewsManagement.BusinessLogic/Services/NewsArticleService.cs:86-105 | succeeds exactly when the article exists; removes the row and its links and keeps every other link |
| NewsArticleService.GetRelatedArticles | HE186645/FUNewsManagement.BusinessLogic/Services/NewsArticleService.cs:122-129 | empty for an unknown article or one without category; otherwise at most three related articles of its category and tags, none repeated beyond the table, and a related article is left out only when three others are returned |
| NewsArticleService.DuplicateArticle | HE186645/FUNewsManagement.BusinessLogic/Services/NewsArticleService.cs:155-191 | succeeds exactly when the source exists and its copy under the generated key can be saved (a key that wrapped onto a stored one cannot); the copy is appended and linked to the same tags as the source; a failure changes nothing |
| SystemAccountService.GenerateNewAccountId | HE186645/FUNewsManagement.BusinessLogic/Services/SystemAccountService.cs:146-162 | a 16-bit key: 1 for an empty table, the fallback key when the table cannot be read |
| SystemAccountService.GeneratedAccountIdFresh | HE186645/FUNewsManagement.BusinessLogic/Services/SystemAccountService.cs:146-157 | below the 16-bit maximum, the new key is larger than every key and so unused |
| SystemAccountService.GeneratedAccountIdWraps | HE186645/FUNewsManagement.BusinessLogic/Services/SystemAccountService.cs:155-156 | at the 16-bit maximum the increment wraps to the minimum |
| SystemAccountService.CreateAccount | HE186645/FUNewsManagement.BusinessLogic/Services/SystemAccountService.cs:35-68 | succeeds exactly when email and password are present, the role is staff or lecturer, the email is unused and the row can be stored under the generated key |
| SystemAccountService.UpdateAccount | HE186645/FUNewsManagement.BusinessLogic/Services/SystemAccountService.cs:70-94 | succeeds exactly when the email is present, the role is staff or lecturer, no other account has the email and the row exists and fits; then it replaces the row |
| SystemAccountService.DeleteAccount | HE186645/FUNewsManagement.BusinessLogic/Services/SystemAccountService.cs:96-125 | succeeds exactly when the account exists, wrote no article and is recorded as no article's last editor (the restricted foreign key); removes exactly that account's row from the table and nothing else |
| SystemAccountService.ChangePassword | HE186645/FUNewsManagement.BusinessLogic/Services/SystemAccountService.cs:127-133 | a blank new password is refused before the repository is asked; otherwise the password changes exactly when the account exists, the old password matches and the new one fits its column, and a matching change that does not fit is passed on as a failed save |
| CategoryService.WithDefaults | HE186645/FUNewsManagement.BusinessLogic/Services/CategoryService.cs:37 | a missing active flag becomes true; a present one and every other field are kept |
| CategoryService.CreateCategory | HE186645/FUNewsManagement.BusinessLogic/Services/CategoryService.cs:25-46 | succeeds exactly when name and description are present, the `smallint` identity is not exhausted and the row can be stored; the stored row has the next key and the defaulted flag; every insert that reaches the database below the identity limit uses up an identity value, and an exhausted identity makes every save fail |
| CategoryService.UpdateCategory | HE186645/FUNewsManagement.BusinessLogic/Services/CategoryService.cs:48-66 | succeeds exactly when name and description are present and the category exists and fits; then it replaces the row |
| CategoryService.DeleteCategory | HE186645/FUNewsManagement.BusinessLogic/Services/CategoryService.cs:68-99 | succeeds exactly when the category exists, no article uses it and no category has it as parent; removes exactly that category's row and nothing else |
| TagService.CreateTag | HE186645/FUNewsManagement.BusinessLogic/Services/TagService.cs:25-44 | succeeds exactly when the name is present, unused and the row can be stored; then appends it |
| TagService.UpdateTag | HE186645/FUNewsManagement.BusinessLogic/Services/TagService.cs:46-65 | succeeds exactly when the name is present, used by no other tag and the tag exists and fits; then replaces it |
| TagService.CreateKeepsNamesUnique | HE186645/FUNewsManagement.BusinessLogic/Services/TagService.cs:33-37 | the duplicate-name check keeps tag names unique on insert |
| TagService.UpdateKeepsNamesUnique | HE186645/FUNewsManagement.BusinessLogic/Services/TagService.cs:54-58 | the duplicate-name check with the tag itself excluded keeps tag names unique on update |
| TagService.DeleteTag | HE186645/FUNewsManagement.BusinessLogic/Services/TagService.cs:67-98 | succeeds exactly when the tag exists and no article uses it; removes exactly that tag's row and nothing else |
| Replies.Outcome | HE186645/FUNewsManagement.Web/Controllers/CategoryController.cs:109-116 | a service result becomes a reply whose flag is the result and whose message is the success or the failure text accordingly |
| ReportController.DayStart | HE186645/FUNewsManagement.Web/Controllers/ReportController.cs:43 | the midnight that starts the day of a time |
| ReportController.WindowIsWholeDays | HE186645/FUNewsManagement.Web/Controllers/ReportController.cs:43-46 | the window runs from midnight of the start day to 23:59:59 of the end day, which with whole-second timestamps covers every second of both days |
| ReportController.DayStartMonotone | HE186645/FUNewsManagement.Web/Controllers/ReportController.cs:43-46 | a later time never starts an earlier day |
| ReportController.DayStartOfMidnight | HE186645/FUNewsManagement.Web/Controllers/ReportController.cs:43 | a midnight is the start of its own day |
| ReportController.DayStartOfLastSecond | HE186645/FUNewsManagement.Web/Controllers/ReportController.cs:46 | the last second of a day still belongs to that day |
| ReportController.StatusCountsAddUp | HE186645/FUNewsManagement.Web/Controllers/ReportController.cs:56-58 | every article is counted either as active or as inactive, never both |
| ReportController.StatOf | HE186645/FUNewsManagement.Web/Controllers/ReportController.cs:64-71 | one group's line: key defaulting to 0, name defaulting to the sentinel, the group size split into active and inactive |
| ReportController.StatsFor | HE186645/FUNewsManagement.Web/Controllers/ReportController.cs:62-71 | one statistics line per group key, in key order |
| ReportController.StatsSumAgree | HE186645/FUNewsManagement.Web/Controllers/ReportController.cs:62-71 | two article lists with the same group sizes give the same total |
| ReportController.GroupCountsAddUp | HE186645/FUNewsManagement.Web/Controllers/ReportController.cs:62-71 | the group sizes add up to the number of articles |
| ReportController.GroupStats | HE186645/FUNewsManagement.Web/Controllers/ReportController.cs:62-73 | the group lines ordered by size, largest first, a permutation of one line per group, summing to the number of articles |
| ReportController.GroupStatsCover | HE186645/FUNewsManagement.Web/Controllers/ReportController.cs:62-73 | every reported article's group appears among the lines |
| ReportController.GroupStatsLine | HE186645/FUNewsManagement.Web/Controllers/ReportController.cs:62-73 | every line splits into active plus inactive and belongs to some reported article |
| ReportController.UpdaterName | HE186645/FUNewsManagement.Web/Controllers/ReportController.cs:103 | no name without an updater; no name when the updater created none of the listed articles (the date-range query does not join the updater); otherwise the same name the report shows for that account as creator |
| ReportController.RowOf | HE186645/FUNewsManagement.Web/Controllers/ReportController.cs:96-107 | a listed row copies key, title, headline and dates, shows the joined category and creator names, shows an updater name only when that account created one of the listed articles, and is active exactly when the article is |
| ReportController.ReportRows | HE186645/FUNewsManagement.Web/Controllers/ReportController.cs:94-108 | newest first, one row per reported article, and no row that is not an article's |
| ReportController.Generate | HE186645/FUNewsManagement.Web/Controllers/ReportController.cs:40-111 | the active count is the number of published reported articles and the inactive count the rest; the statistics are the groupings by category ("Uncategorized") and by author ("Unknown"), ordered by size and summing to the total; the list is the window's articles, newest first |
| ReportController.ReportGroupsCover | HE186645/FUNewsManagement.Web/Controllers/ReportController.cs:61-91 | every reported article has a line in the category statistics and in the author statistics, and that line counts exactly the reported articles with the same key |
| ReportController.ReportListsWindow | HE186645/FUNewsManagement.Web/Controllers/ReportController.cs:43-49 | an article is reported exactly when it was created inside the whole-day window |
| CategoryController.CreateError | HE186645/FUNewsManagement.Web/Controllers/CategoryController.cs:78-99 | the first failing check among required name, required description, name length 100 and description length 250; none exactly when all pass |
| CategoryController.EditError | HE186645/FUNewsManagement.Web/Controllers/CategoryController.cs:122-133 | the first missing field among name and description; every form accepted by Create is accepted by Edit |
| CategoryController.Edited | HE186645/FUNewsManagement.Web/Controllers/CategoryController.cs:141-144 | the edited category keeps its key and takes every other field from the form |
| CategoryController.CreateChecksMatchStore | HE186645/FUNewsManagement.Web/Controllers/CategoryController.cs:78-117 | the controller's checks pass exactly when the service accepts the fields and the row fits its columns |
| CategoryController.EditSkipsLengthLimit | HE186645/FUNewsManagement.Web/Controllers/CategoryController.cs:122-133 | Edit accepts a 101-character name that Create refuses |
| CategoryController.Create | HE186645/FUNewsManagement.Web/Controllers/CategoryController.cs:78-117 | answers with the first failing check, or with the service's outcome and its success or failure message ("Failed to create category" once the identity is exhausted or the parent is unknown); an identity value is used up exactly when the checks pass and the identity is not exhausted |
| CategoryController.Edit | HE186645/FUNewsManagement.Web/Controllers/CategoryController.cs:122-154 | answers with the first missing field, "Category not found", or the update's outcome |
| CategoryController.Delete | HE186645/FUNewsManagement.Web/Controllers/CategoryController.cs:159-175 | refuses a category that articles use with its message; otherwise reports the delete's outcome, removing exactly that category's row on success |
| CategoryController.Toggle | HE186645/FUNewsManagement.Web/Controllers/CategoryController.cs:188 | flips a present flag and keeps a missing one missing |
| CategoryController.ToggleInvolution | HE186645/FUNewsManagement.Web/Controllers/CategoryController.cs:180-197 | toggling twice restores the flag; a toggle activates exactly an inactive category |
| CategoryController.ToggleActive | HE186645/FUNewsManagement.Web/Controllers/CategoryController.cs:180-197 | "Category not found" for an unknown key; otherwise saves the flipped flag and answers "Category status updated" or "Failed to update status" |
| SystemAccountController.RoleName | HE186645/FUNewsManagement.Web/Controllers/SystemAccountController.cs:195-204 | the display name of each role, "Unknown" exactly for any other number |
| SystemAccountController.UnsetRoleListedAsAdministrator | HE186645/FUNewsManagement.Web/Controllers/SystemAccountController.cs:33-34 | an account without role is listed as "Administrator" |
| SystemAccountController.CreateError | HE186645/FUNewsManagement.Web/Controllers/SystemAccountController.cs:69-99 | the first failing check among role, blank email, taken email, short password and blank name; none exactly when all pass |
| SystemAccountController.CreateChecksCoverService | HE186645/FUNewsManagement.Web/Controllers/SystemAccountController.cs:69-109 | once the controller's checks pass, the service accepts the fields exactly when the password is not blank, and the email is free |
| SystemAccountController.Create | HE186645/FUNewsManagement.Web/Controllers/SystemAccountController.cs:69-117 | answers with the first failing check, or with the service's outcome |
| SystemAccountController.Edited | HE186645/FUNewsManagement.Web/Controllers/SystemAccountController.cs:148-160 | name, email and role come from the form; the password is kept when the form leaves it empty |
| SystemAccountController.EditError | HE186645/FUNewsManagement.Web/Controllers/SystemAccountController.cs:122-158 | the first failing check among role, unknown account, email taken by another account, blank name and short password |
| SystemAccountController.Edit | HE186645/FUNewsManagement.Web/Controllers/SystemAccountController.cs:122-170 | answers with the first failing check, or replaces the account by the edited row when the service accepts it |
| SystemAccountController.EditKeepsPasswordWhenEmpty | HE186645/FUNewsManagement.Web/Controllers/SystemAccountController.cs:148-160 | an empty password field changes only name, email and role |
| SystemAccountController.Delete | HE186645/FUNewsManagement.Web/Controllers/SystemAccountController.cs:175-192 | refuses an account that wrote articles with its message; otherwise reports the delete's outcome, removing exactly that account's row on success |
| AccountController.SignIn | HE186645/FUNewsManagement.Web/Controllers/AccountController.cs:46-66 | the configured administrator credentials sign in without the database; any other pair signs in exactly the matching account |
| AccountController.LandingFor | HE186645/FUNewsManagement.Web/Controllers/AccountController.cs:68-83 | administrators land on account management, staff on article management, everyone else on the home page |
| AccountController.LoginAction | HE186645/FUNewsManagement.Web/Controllers/AccountController.cs:39-87 | signed in exactly when the credentials are accepted, with that account as session; otherwise "Invalid email or password" |
| AccountController.AdminLandingIsGuarded | HE186645/FUNewsManagement.Web/Controllers/AccountController.cs:51-83 | the administrator credentials land on account management and pass its "Admin" filter; any other account landing there without the administrator email is turned away |
| AccountController.GetRoleName | HE186645/FUNewsManagement.Web/Controllers/AccountController.cs:270-279 | agrees with the account list's role names, and gives "Unknown" exactly for a missing or unknown role |
| AccountController.ChangePasswordError | HE186645/FUNewsManagement.Web/Controllers/AccountController.cs:217-248 | the first failing check among administrator, missing field, mismatch and length 2; none exactly when all pass |
| AccountController.ChangePassword | HE186645/FUNewsManagement.Web/Controllers/AccountController.cs:217-262 | answers with the first failing check; otherwise the password changes exactly when the new one is not blank, the old one matches and the new one fits; a matching password that does not fit ends on the error page, since nothing catches the failed save |
| AccountController.BlankNewPasswordBlamesCurrent | HE186645/FUNewsManagement.Web/Controllers/AccountController.cs:217-262 | a blank but non-empty new password passes every controller check, so the service's refusal is shown as a wrong current password |
| AccountController.UpdateProfile | HE186645/FUNewsManagement.Web/Controllers/AccountController.cs:143-191 | administrators are refused; a blank name is refused; otherwise only the name changes, in the store and in the session |
| AuthHelper.Decide | HE186645/FUNewsManagement.Web/Helpers/AuthHelper.cs:16-65 | no session redirects to login; with a session the action proceeds exactly when no role is required or some required role admits the account |
| AuthHelper.OnActionExecuting | HE186645/FUNewsManagement.Web/Helpers/AuthHelper.cs:16-65 | the loop over the required roles reaches the decision |
| AuthHelper.DecisionIgnoresOrder | HE186645/FUNewsManagement.Web/Helpers/AuthHelper.cs:27-55 | lists of the same roles in any order or with repeats decide alike |
| AuthHelper.AdminIsDecidedByEmail | HE186645/FUNewsManagement.Web/Helpers/AuthHelper.cs:33-43 | the administrator role depends on the email alone, never on the stored role |
| AuthHelper.StaffAndLecturerByRole | HE186645/FUNewsManagement.Web/Helpers/AuthHelper.cs:45-54 | the staff and lecturer roles admit exactly the accounts with that role number |
| NewsArticleController.CreateError | HE186645/FUNewsManagement.Web/Controllers/NewsArticleController.cs:89-106 | the first failing check among title, headline and category; none exactly when all pass |
| NewsArticleController.EditError | HE186645/FUNewsManagement.Web/Controllers/NewsArticleController.cs:191-202 | the first failing check among title and headline; every form accepted by Create is accepted by Edit |
| NewsArticleController.NewArticle | HE186645/FUNewsManagement.Web/Controllers/NewsArticleController.cs:110-121 | the new row names the signed-in account as author, the request time as creation time and the form's status |
| NewsArticleController.SelectedTags | HE186645/FUNewsManagement.Web/Controllers/NewsArticleController.cs:123 | no selection is the empty list |
| NewsArticleController.Create | HE186645/FUNewsManagement.Web/Controllers/NewsArticleController.cs:76-141 | redirects without a session, answers the first failing check, otherwise reports "saved" exactly when the row and its tag links are stored; a failed save leaves the tables as the service does |
| NewsArticleController.Edited | HE186645/FUNewsManagement.Web/Controllers/NewsArticleController.cs:210-217 | keeps key, author and creation time, takes the editable fields from the form and records the editor and time |
| NewsArticleController.Edit | HE186645/FUNewsManagement.Web/Controllers/NewsArticleController.cs:178-229 | redirects without a session, answers the first failing check, "not found" for an unknown article, otherwise the update's outcome, with the tables left as the service leaves them on success and on failure |
| NewsArticleController.Details | HE186645/FUNewsManagement.Web/Controllers/NewsArticleController.cs:299-325 | details exist exactly when the article does; the status shows active exactly when it is, and the selected tags are its linked tags |
| HomeController.Preview | HE186645/FUNewsManagement.Web/Controllers/HomeController.cs:33-35 | content of at most 200 characters is shown whole; longer content is cut to its first 200 characters plus "..." |
| HomeController.PreviewIdempotent | HE186645/FUNewsManagement.Web/Controllers/HomeController.cs:33-35 | shortening a preview again leaves it unchanged |
| HomeController.TeaserOf | HE186645/FUNewsManagement.Web/Controllers/HomeController.cs:28-40 | an article's teaser keeps its key and shows its content's preview |
| HomeController.Teasers | HE186645/FUNewsManagement.Web/Controllers/HomeController.cs:28-40 | one teaser per article, in order |
| HomeController.Index | HE186645/FUNewsManagement.Web/Controllers/HomeController.cs:23-49 | the teasers of the published search results, newest first; every published article matching the filters is shown, each preview at most 203 characters |
| HomeController.AssignedTags | HE186645/FUNewsManagement.Web/Controllers/HomeController.cs:73 | exactly the tags linked to the article; none for an article without links |
| HomeController.ViewArticle | HE186645/FUNewsManagement.Web/Controllers/HomeController.cs:52-88 | a page exactly when the article exists and is published, with its linked tags and at most three related articles, none for an article without category, and a related article left out only when three others are shown |

## Left out

- The clock. `DateTime.Now` and the calendar arithmetic of `AddMonths(-1)` are parameters (`now`, `monthAgo`) in whole seconds; time zones and sub-second precision are not modelled.
- Collation. The database's string ordering is modelled as ordinal order on characters, and `Contains` as an ordinal substring test; case-insensitive collations are not modelled.
- Entity Framework change tracking, lazy and eager loading. An `Include` becomes a look-up of the referenced row; the one place where the source relies on tracking without an `Include` (the report's updater name) is modelled as described under ReportController.RowOf below. The generic repository base class (`AddAsync`, `UpdateAsync`, `DeleteAsync`, `GetByIdAsync`) is not part of this model; its effect is the corresponding `Store` method.
- Database failures other than constraint violations (lost connections, timeouts) are not modelled. A constraint violation is a refused store write, which the services report as `false`.
- Concurrency between requests is not modelled; every action runs alone.
- `int.TryParse` is modelled for optional sign and decimal digits only; culture-specific forms, surrounding white space and thousands separators are not.
- SystemAccountService.GenerateNewAccountId: a failing table read is a `readFails` parameter, which yields the fallback key; the exception itself is not modelled.
- NewsTagRepository.AddTagsToArticle: a requested tag that is already linked, unknown or repeated makes the database reject the whole batch, so the call fails and no link is added; the model follows that code path.
- NewsTagRepository.LinkedTagIds and HomeController.AssignedTags: the order of the tags is the tag table's order; the source's order depends on the query plan.
- TagRepository.SearchTags: for an empty term the source returns the tags unordered; the model keeps table order.
- NewsArticleRepository.RelatedArticles: the source takes three rows without ordering; the model takes the first three in table order and states how many rows are returned and which may be, not which are chosen.
- The tag management controller, the report's Excel export and the GET actions that only load a form or forward to a service call are not part of this model.
- The NewsArticleController list, delete, duplicate and "my articles" actions only forward to the services modelled here and are not modelled separately.
- View-model data annotations and model-state validation of the login form are not modelled; login email and password are taken as present strings.
- MVC plumbing (TempData, ViewBag, JSON results, redirects other than those named) and the session's JSON serialisation are not modelled; a session is an optional account.
- The controllers' `catch` branches that show "Error: " with an exception message are not modelled, because the modelled services catch their database failures. The one exception is the password change: its failed save is not caught anywhere and is modelled as the error page of AccountController.ChangePassword.
- CategoryController.Edit and SystemAccountController.Edit: as in the source, the edit actions do not re-check the length limits or a blank email that the create actions check; a too-long field is refused by the store.
- ReportController.RowOf: the updater's name follows the source's single tracked query (the updater is known only when the same query loaded that account as a creator); the model does not follow change tracking across requests, since the database context lives for one request.
- Store.Consistent: account ids and the `short` foreign keys (an article's category, creator and updater, a category's parent) are unbounded integers. In the source the C# `short` type keeps them between -32768 and 32767. The model bounds only the category identity (Store.Store.Valid) and wraps the generated account key at 16 bits; a foreign key that must name an existing row inherits that row's range.
- HomeController.Preview: strings are sequences of Unicode scalar values, while C# `Length`, `Substring` and the `nvarchar` column widths count UTF-16 code units. For text outside the Basic Multilingual Plane the model counts one character where the source counts two. This affects the 200-character cut of Preview, the column limits in `Consistent` and `FitsIn`, the 100- and 250-character checks of CategoryController.CreateError, and the 2-character password minimums of SystemAccountController.CreateError, SystemAccountController.EditError and AccountController.ChangePasswordError.

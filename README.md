# FinanceApp domain and data-access core, in Dafny

This project models the domain and data-access layer of FinanceApp, a personal-finance web application written in C#. It then proves properties of that model.

Models of the domain:

- **Entities.** `BaseEntity` carries the key, the audit timestamps and the soft-delete flag. `Category`, `Expense` and `Budget` add their own fields, with guarded constructors and update methods.
- **Currencies.** The `Currency` enumeration.

Models of data access:

- **Entity store.** `FinanceDbContext` is one entity table plus the change tracker's staged entries. It has the soft-delete global query filter. Its `SaveChangesAsync` runs a hook that stamps `CreatedAt` on Added entries and `UpdatedAt` on Modified ones, then writes every staged change or none.
- **Repository.** The generic `Repository<T>`: id lookup, queries that always hide soft-deleted rows, staging (add, update, remove, soft delete), commit, and skip/take pagination that reports a total count.
- **Predicate combinator.** `ExpressionExtensions.AndAlso` conjoins two predicate lambdas by rewriting both bodies over one shared parameter. It is modelled on a small expression-tree language.

Models of the services and conversion:

- **Services.** `CategoryService`, `ExpenseService` and `BudgetService` hold the ownership rules, the default-category seeding and the monthly-budget upsert.
- **Currency conversion.** `CurrencyConversionService`: a rate table read from configuration, with fallbacks, and conversion to US dollars rounded to cents, halves away from zero.

How the model is built:

- **Entities are values.** Each entity is a value of `Entity<D>`, where `D` is the entity's own payload (`CategoryData`, `ExpenseData`, `BudgetData`). A mutator is a function from the old entity to the new one. A guarded mutator returns a `Result` that carries the exception it would throw.
- **The store is a class.** `FinanceDbContext` has two mutable fields, `Rows` (the committed table) and `Entries` (the tracker). The repository and the services are classes whose methods change that context. Each method's `ensures` states its new state through the functions `TrackAdded`, `TrackModified`, `TrackDeleted`, `Stamp` and `ApplyEntries`, and through the predicate `Committed`.
- **`Committed`** says what one commit leaves behind. The commit passes exactly when the database accepts every staged entry. In that case the stamped entries are written and the tracker is emptied. Otherwise it throws `DbUpdateException` and writes nothing.
- **Inputs.** The clock (`now`), `Guid.NewGuid()` (`id`, or `newIds` for a sequence of keys) and the `ExchangeRates` configuration section (a `map<string, real>`) are parameters.
- **Numbers.** `decimal` is modelled as `real`.

## Model

| member | source | states |
|---|---|---|
| BaseEntities.Entity.SetCreated | FinanceApp.Domain/Common/BaseEntity.cs:19-22 | `CreatedAt` becomes the argument; key, `UpdatedAt`, flag and payload are unchanged |
| BaseEntities.Entity.MarkAsUpdated | FinanceApp.Domain/Common/BaseEntity.cs:24-27 | `UpdatedAt` becomes the argument; every other field is unchanged |
| BaseEntities.Entity.SoftDelete | FinanceApp.Domain/Common/BaseEntity.cs:30-33 | the flag is raised; every other field is unchanged |
| BaseEntities.NewEntity | FinanceApp.Domain/Common/BaseEntity.cs:6-16 | a new entity is not deleted, has no `UpdatedAt`, the default `CreatedAt` and the given key |
| BaseEntities.DeletionIsTerminal | FinanceApp.Domain/Common/BaseEntity.cs:16-33 | no sequence of `BaseEntity` calls clears the flag once it is set |
| BaseEntities.IdentityIsStable | FinanceApp.Domain/Common/BaseEntity.cs:6-33 | no sequence of `BaseEntity` calls changes the key or the payload |
| BaseEntities.SoftDeleteIdempotent | FinanceApp.Domain/Common/BaseEntity.cs:30-33 | soft-deleting twice is soft-deleting once |
| Categories.NewCategory | FinanceApp.Domain/Entities/Category.cs:30-39 | fails exactly for a blank name; otherwise stores name and description; a missing icon or colour becomes the default, a given one is kept unchecked; the owner is the empty string |
| Categories.WithOwner | FinanceApp.Domain/Entities/Category.cs:18 | only the owner changes |
| Categories.UpdateName | FinanceApp.Domain/Entities/Category.cs:42-48 | fails exactly for a blank name; otherwise only `Name` changes |
| Categories.UpdateDescription | FinanceApp.Domain/Entities/Category.cs:50-53 | stores the description, null included; nothing else changes |
| Categories.UpdateIcon | FinanceApp.Domain/Entities/Category.cs:55-58 | a null icon becomes "shopping-cart", a given one is stored; nothing else changes |
| Categories.UpdateBadgeColor | FinanceApp.Domain/Entities/Category.cs:60-66 | succeeds exactly for a 7-character string that starts with '#'; then only `BadgeColor` changes |
| Categories.BadgeColorForm | FinanceApp.Domain/Entities/Category.cs:60-66 | the blank test is implied by the other two checks |
| Categories.BadgeColorExamples | FinanceApp.Domain/Entities/Category.cs:30-66 | "#137fec" is accepted by `UpdateBadgeColor`; "blue" is rejected there but accepted by the constructor |
| Expenses.NewExpense | FinanceApp.Domain/Entities/Expense.cs:29-48 | fails exactly when the amount is not positive; otherwise stores every argument, and the amount invariant holds |
| Expenses.UpdateDescription | FinanceApp.Domain/Entities/Expense.cs:51-54 | only `Description` changes |
| Expenses.UpdateReceipt | FinanceApp.Domain/Entities/Expense.cs:56-59 | only `ReceiptPath` changes |
| Expenses.UpdateAmount | FinanceApp.Domain/Entities/Expense.cs:61-67 | fails exactly for a non-positive amount; otherwise only `Amount` changes and the invariant holds |
| Expenses.UpdateCurrency | FinanceApp.Domain/Entities/Expense.cs:69-72 | only `Currency` changes |
| Expenses.UpdateExpenseDate | FinanceApp.Domain/Entities/Expense.cs:74-77 | only `ExpenseDate` changes |
| Expenses.LifetimeInvariant | FinanceApp.Domain/Entities/Expense.cs:38-77 | over any sequence of calls the amount stays positive; owner, key and category never change |
| Expenses.AmountBoundary | FinanceApp.Domain/Entities/Expense.cs:38-39 | 0 and -5 are rejected, 0.01 is accepted |
| Budgets.NewBudget | FinanceApp.Domain/Entities/Budget.cs:19-35 | succeeds exactly for a non-blank owner, month 1..12, year 2000..2100 and an amount >= 0; gives each failure's exception in check order; stores all five arguments |
| Budgets.UpdateAmount | FinanceApp.Domain/Entities/Budget.cs:37-42 | fails exactly for a negative amount; otherwise only `Amount` changes |
| Budgets.LifetimeInvariant | FinanceApp.Domain/Entities/Budget.cs:11-42 | the constructor's checks hold for the budget's lifetime; owner, month, year and currency never change |
| Currencies.AllCurrenciesListsEveryMember | FinanceApp.Domain/Enums/Currency.cs:8-26 | the enumeration's value list holds every member |
| ExpressionExtensions.Replace | FinanceApp.Application/Extensions/ExpressionExtension.cs:40-55 | the rewritten body mentions no parameter other than the original ones minus `from`, plus `to` |
| ExpressionExtensions.ReplaceEval | FinanceApp.Application/Extensions/ExpressionExtension.cs:40-55 | a body rewritten over a parameter it does not mention evaluates like the original body |
| ExpressionExtensions.SharedParameter | FinanceApp.Application/Extensions/ExpressionExtension.cs:24 | the new parameter occurs in neither body |
| ExpressionExtensions.AndAlso | FinanceApp.Application/Extensions/ExpressionExtension.cs:16-37 | rejects a null argument, the first one first; otherwise, for every argument, the result is the short-circuit conjunction of both lambdas; it holds exactly where both hold; closed lambdas give a closed lambda |
| ExpressionExtensions.AndAlsoEval | FinanceApp.Application/Extensions/ExpressionExtension.cs:24-36 | both rewritten bodies are evaluated against the same single argument |
| ExpressionExtensions.ClosedIsTotal | FinanceApp.Application/Extensions/ExpressionExtension.cs:36 | a closed lambda evaluates on every argument |
| ExpressionExtensions.ShortCircuit | FinanceApp.Application/Extensions/ExpressionExtension.cs:34 | when the first lambda is false, a second lambda that cannot be evaluated does not make the conjunction fail |
| Sequences.SortBy | FinanceApp.Infrastructure/Repositories/Repository.cs:101-102 | the result is sorted by the key and is a permutation of the input |
| Sequences.Skip | FinanceApp.Infrastructure/Repositories/Repository.cs:107 | the result is the suffix of length `|s| - min(n, |s|)` |
| Sequences.Take | FinanceApp.Infrastructure/Repositories/Repository.cs:108 | the result is the prefix of length `min(n, |s|)` |
| Sequences.TakeSkip | FinanceApp.Infrastructure/Repositories/Repository.cs:107-108 | `Take(n)` followed by `Skip(n)` gives the sequence back: nothing is lost or repeated at the split |
| Sequences.Page | FinanceApp.Infrastructure/Repositories/Repository.cs:106-109 | the slice from `(pageNumber-1)*pageSize` of length at most `pageSize` |
| Sequences.PageIsSlice | FinanceApp.Infrastructure/Repositories/Repository.cs:106-109 | a page holds items of the list and keeps its order |
| Sequences.PagesCoverAll | FinanceApp.Infrastructure/Repositories/Repository.cs:104-117 | pages 1..⌈total/size⌉ concatenated give the whole list; every page before the last is full |
| Persistence.Where | FinanceApp.Infrastructure/Repositories/Repository.cs:52 | keeps exactly the items the predicate holds for |
| Persistence.NotDeleted | FinanceApp.Infrastructure/Repositories/Repository.cs:39 | holds exactly for items that are not deleted |
| Persistence.SameKeySameRow | FinanceApp.Infrastructure/Persistence/FinanceDbContext.cs:54 | under the primary key a key names at most one row |
| Persistence.TrackAdded | FinanceApp.Infrastructure/Repositories/Repository.cs:56-59 | the entity is tracked as Added; no entry for another key changes; the tracker keeps one entry per key |
| Persistence.TrackModified | FinanceApp.Infrastructure/Repositories/Repository.cs:62-65 | the entity is tracked as Modified, or stays Added; no other entry changes |
| Persistence.TrackDeleted | FinanceApp.Infrastructure/Repositories/Repository.cs:68-71 | the entity is tracked as Deleted, or untracked if it was Added; no other entry changes |
| Persistence.RemoveById | FinanceApp.Infrastructure/Repositories/Repository.cs:68-71 | a committed removal drops exactly the row with the key; every other row stays |
| Persistence.StampEntry | FinanceApp.Infrastructure/Persistence/FinanceDbContext.cs:24-32 | Added: `CreatedAt` is stamped; Modified: `UpdatedAt` is stamped and `CreatedAt` kept; other states: untouched; state, key, flag and payload are kept |
| Persistence.Stamp | FinanceApp.Infrastructure/Persistence/FinanceDbContext.cs:22-33 | the hook is applied to every entry, in order |
| Persistence.CanCommit | FinanceApp.Infrastructure/Persistence/FinanceDbContext.cs:35 | the database accepts a unit of work exactly when every added key is new and every updated or deleted key exists |
| Persistence.ApplyEntries | FinanceApp.Infrastructure/Persistence/FinanceDbContext.cs:35 | every row written is an old row or a staged entity; Unchanged and Detached entries write nothing |
| Persistence.Committed | FinanceApp.Infrastructure/Persistence/FinanceDbContext.cs:35 | a commit passes exactly when `CanCommit` holds; then the stamped entries are applied and the tracker is empty; otherwise `DbUpdateException`, the table unchanged and the stamped entries still tracked |
| Persistence.CommittedKeepsKeysUnique | FinanceApp.Infrastructure/Persistence/FinanceDbContext.cs:35 | a commit, passed or refused, keeps keys unique in the table and in the tracker |
| Persistence.ApplyKeepsKeysUnique | FinanceApp.Infrastructure/Persistence/FinanceDbContext.cs:35 | a commit the database accepts keeps the primary keys unique |
| Persistence.FinanceDbContext.constructor | FinanceApp.Infrastructure/Persistence/FinanceDbContext.cs:10-13 | a context over a table with unique keys and an empty tracker |
| Persistence.FinanceDbContext.Query | FinanceApp.Infrastructure/Persistence/FinanceDbContext.cs:52-93 | with the global filter no deleted row is seen; every live row is seen |
| Persistence.FinanceDbContext.SaveChanges | FinanceApp.Infrastructure/Persistence/FinanceDbContext.cs:20-36 | the stamping loop, then `Committed`: all staged changes or none |
| Repositories.FirstOrDefault | FinanceApp.Infrastructure/Repositories/Repository.cs:29 | null exactly for an empty list, else its first item |
| Repositories.ById | FinanceApp.Infrastructure/Repositories/Repository.cs:29 | holds exactly for the live entity with the key |
| Repositories.Repository.constructor | FinanceApp.Infrastructure/Repositories/Repository.cs:20-24 | the repository works on the given context |
| Repositories.Repository.GetById | FinanceApp.Infrastructure/Repositories/Repository.cs:27-30 | a live row with the key, or null exactly when there is none |
| Repositories.Repository.GetAll | FinanceApp.Infrastructure/Repositories/Repository.cs:37-47 | exactly the live rows, in table order |
| Repositories.Repository.Find | FinanceApp.Infrastructure/Repositories/Repository.cs:49-53 | exactly the live rows the predicate holds for, in table order |
| Repositories.Repository.Matching | FinanceApp.Infrastructure/Repositories/Repository.cs:93-96 | exactly the live rows the optional filter keeps |
| Repositories.Repository.Ordered | FinanceApp.Infrastructure/Repositories/Repository.cs:93-102 | a permutation of `Matching`, sorted when an ordering is given (the model fixes the order of unordered results and of ties: table order) |
| Repositories.Repository.GetPaged | FinanceApp.Infrastructure/Repositories/Repository.cs:86-118 | echoes page number and size; total is the count before skip/take; the items are the page of the ordered query, at most `pageSize`, each a live row the filter keeps, sorted |
| Repositories.Repository.Add | FinanceApp.Infrastructure/Repositories/Repository.cs:56-59 | stages the entity as Added; the table is unchanged |
| Repositories.Repository.Update | FinanceApp.Infrastructure/Repositories/Repository.cs:62-65 | stages the entity as Modified; the table is unchanged |
| Repositories.Repository.Remove | FinanceApp.Infrastructure/Repositories/Repository.cs:68-71 | stages the entity as Deleted; the table is unchanged |
| Repositories.Repository.SoftDelete | FinanceApp.Infrastructure/Repositories/Repository.cs:74-78 | stages the flagged entity as Modified; the table is unchanged |
| Repositories.Repository.SaveChanges | FinanceApp.Infrastructure/Repositories/Repository.cs:81-84 | the context's commit (`Committed`) |
| Repositories.PagesCoverQuery | FinanceApp.Infrastructure/Repositories/Repository.cs:104-117 | walking the pages of a paged query visits every matching row exactly once, in order, given the single fixed order that `Ordered` picks; all pages but the last are full |
| Repositories.SoftDeleteCommitted | FinanceApp.Infrastructure/Repositories/Repository.cs:74-78 | a committed soft delete keeps the row, flags it and stamps `UpdatedAt`; other rows are untouched; the key is no longer found |
| Repositories.FoundLive | FinanceApp.Infrastructure/Repositories/Repository.cs:27-30 | `GetByIdAsync` finds every live row by its key |
| CategoryServices.OwnedBy | FinanceApp.Application/Services/CategoryService.cs:46 | holds exactly for the user's categories |
| CategoryServices.TemplateFilter | FinanceApp.Application/Services/CategoryService.cs:143 | holds exactly for the template categories |
| CategoryServices.Edit | FinanceApp.Application/Services/CategoryService.cs:111-115 | fails exactly for a blank name or a given malformed colour; otherwise name, description and icon are overwritten, the colour only when a non-blank one is given, and key, stamps, flag and owner are kept |
| CategoryServices.SeedCopies | FinanceApp.Application/Services/CategoryService.cs:146-156 | every copy is live, owned by the user, has the k-th new key and the default icon and colour; there are no more copies than templates (`SeedMatchesMissing` states which copies) |
| CategoryServices.Missing | FinanceApp.Application/Services/CategoryService.cs:146-149 | the templates whose name the user lacks, in template order: each is a template the user lacks, and every such template is in it |
| CategoryServices.SeedMatchesMissing | FinanceApp.Application/Services/CategoryService.cs:146-156 | the k-th copy has the k-th missing template's name and description; without a rejection there is exactly one copy per missing template, a repeated template name included; after a rejection a prefix |
| CategoryServices.SeedNext | FinanceApp.Application/Services/CategoryService.cs:146-156 | after a rejection, or for a name the user has, the iteration stages nothing |
| CategoryServices.SeedNamed | FinanceApp.Application/Services/CategoryService.cs:146-156 | every copy is named after a template whose name the user did not have |
| CategoryServices.SeedComplete | FinanceApp.Application/Services/CategoryService.cs:146-156 | without a rejection, every template name is the user's or a copy's |
| CategoryServices.SeedFailsIff | FinanceApp.Application/Services/CategoryService.cs:148-151 | the loop fails exactly when a template the user lacks has a blank name |
| CategoryServices.SeedStopped | FinanceApp.Application/Services/CategoryService.cs:151 | once a template is rejected, the rest of the loop does not run |
| CategoryServices.SeedNothing | FinanceApp.Application/Services/CategoryService.cs:148-149 | a user who has every template name gets no copy |
| CategoryServices.QueriesAfterAppend | FinanceApp.Application/Services/CategoryService.cs:140-143 | after the copies are appended, the user's query gains exactly the copies |
| CategoryServices.SeedFrom | FinanceApp.Application/Services/CategoryService.cs:140-156 | over a table, with both queries read before the loop: the copies are the user's and match the live templates the user lacks, by name and description, in order; all of them unless one is rejected |
| CategoryServices.SeedingIsIdempotent | FinanceApp.Application/Services/CategoryService.cs:137-160 | once a successful run's copies are in the table, a second run stages nothing |
| CategoryServices.CategoryService.constructor | FinanceApp.Application/Services/CategoryService.cs:18-21 | the service works on the given repository |
| CategoryServices.CategoryService.GetById | FinanceApp.Application/Services/CategoryService.cs:26-36 | throws exactly for a blank user; otherwise the user's live category with the key, or null exactly when there is none |
| CategoryServices.CategoryService.GetAll | FinanceApp.Application/Services/CategoryService.cs:41-47 | throws exactly for a blank user; otherwise exactly the user's live categories |
| CategoryServices.CategoryService.GetPagedCategories | FinanceApp.Application/Services/CategoryService.cs:52-75 | throws exactly for a blank user; otherwise the items are exactly the requested page of the user's live categories that the caller's filter keeps (`UserFilter`), in the requested order; every item is such a category; total counts all of them; sorted when asked |
| CategoryServices.UserFilter | FinanceApp.Application/Services/CategoryService.cs:60-67 | a category passes exactly when it belongs to the user and, if a filter is given, the filter keeps it |
| CategoryServices.CategoryService.GetCategories | FinanceApp.Application/Services/CategoryService.cs:161-172 | an administrator gets every live category; otherwise a blank user throws, else the user's own |
| CategoryServices.CategoryService.CreateCategory | FinanceApp.Application/Services/CategoryService.cs:80-97 | checks the name, then the owner, before staging; stages the user's new category and commits; on success appends exactly it, and `GetByIdAsync` finds it |
| CategoryServices.CategoryService.UpdateCategory | FinanceApp.Application/Services/CategoryService.cs:102-119 | a blank user, a missing or foreign category, or a rejected edit throws before anything changes; otherwise stages the edited category and commits; on success the row is replaced by it, stamped |
| CategoryServices.CategoryService.DeleteCategory | FinanceApp.Application/Services/CategoryService.cs:124-135 | a blank user or a missing or foreign category throws before anything changes; otherwise soft-deletes and commits; on success the row stays, flagged, and is no longer found |
| CategoryServices.CategoryService.AssignDefaultCategoriesToUser | FinanceApp.Application/Services/CategoryService.cs:137-160 | stages the copies `SeedCopies` describes and commits them together; a rejection stops before the commit; on success with fresh keys the table gains the stamped copies |
| CategoryServices.CategoryService.StageCopies | FinanceApp.Application/Services/CategoryService.cs:146-156 | the loop stages exactly `SeedCopies`' copies and returns its error |
| BudgetServices.ForPeriod | FinanceApp.Application/Services/BudgetService.cs:20 | holds exactly for budgets of the user and month |
| BudgetServices.ReplaceInPeriod | FinanceApp.Application/Services/BudgetService.cs:26-32 | updating the period's first budget keeps the number of the period's budgets and puts the new one first |
| BudgetServices.AppendToEmptyPeriod | FinanceApp.Application/Services/BudgetService.cs:34-37 | adding to a period with no budget makes it the only one |
| BudgetServices.BudgetService.constructor | FinanceApp.Application/Services/BudgetService.cs:12-15 | the service works on the given repository |
| BudgetServices.BudgetService.GetBudgetForMonth | FinanceApp.Application/Services/BudgetService.cs:17-22 | null for a blank user; otherwise the first live budget of the period, null exactly when there is none |
| BudgetServices.BudgetService.SetBudget | FinanceApp.Application/Services/BudgetService.cs:24-38 | updates only the amount of an existing budget, or adds one built by the constructor; commits; on success the lookup returns the result, with the given amount, and the period holds one budget where it held none (otherwise unchanged) |
| BudgetServices.BudgetService.UpdateExisting | FinanceApp.Application/Services/BudgetService.cs:26-32 | the update branch: stages the budget with its new amount and commits; the period's count is unchanged |
| BudgetServices.BudgetService.AddNew | FinanceApp.Application/Services/BudgetService.cs:34-37 | the insert branch: stages the constructed budget and commits; the period then holds exactly it |
| ExpenseServices.InCategory | FinanceApp.Application/Services/ExpenseService.cs:39 | holds exactly for expenses of the category |
| ExpenseServices.InCategoryOf | FinanceApp.Application/Services/ExpenseService.cs:117 | holds exactly for the user's expenses of the category |
| ExpenseServices.NewestFirst | FinanceApp.Application/Services/ExpenseService.cs:118 | descending by expense date |
| ExpenseServices.NewestFirstSorted | FinanceApp.Application/Services/ExpenseService.cs:118 | a page sorted newest first has non-increasing dates |
| ExpenseServices.ExpenseService.constructor | FinanceApp.Application/Services/ExpenseService.cs:19-22 | the service works on the given repository |
| ExpenseServices.ExpenseService.GetById | FinanceApp.Application/Services/ExpenseService.cs:27-30 | a live expense with the key, of any user, or null exactly when there is none |
| ExpenseServices.ExpenseService.GetAll | FinanceApp.Application/Services/ExpenseService.cs:32-35 | exactly the live expenses of every user |
| ExpenseServices.ExpenseService.GetByCategoryId | FinanceApp.Application/Services/ExpenseService.cs:37-40 | exactly the live expenses of the category, of every user |
| ExpenseServices.ExpenseService.GetPagedExpenses | FinanceApp.Application/Services/ExpenseService.cs:66-79 | exactly the repository page for the caller's filter and ordering |
| ExpenseServices.ExpenseService.GetByCategoryIdPaged | FinanceApp.Application/Services/ExpenseService.cs:108-121 | items are exactly the requested page of the user's live expenses of the category, newest first; total counts all of them |
| ExpenseServices.ExpenseService.AddExpense | FinanceApp.Application/Services/ExpenseService.cs:42-46 | stages the expense as Added and commits; on success appends it, stamped |
| ExpenseServices.ExpenseService.UpdateExpense | FinanceApp.Application/Services/ExpenseService.cs:48-52 | stages the expense as Modified and commits; on success its row is replaced, stamped |
| ExpenseServices.ExpenseService.SoftDeleteExpense | FinanceApp.Application/Services/ExpenseService.cs:54-61 | a missing or deleted key changes nothing; otherwise soft-deletes and commits; on success the row stays, flagged, other rows are untouched, and the key is no longer found |
| ExpenseServices.ExpenseService.CreateExpense | FinanceApp.Application/Services/ExpenseService.cs:84-107 | a non-positive amount throws before staging; otherwise stages the new expense and commits; on success appends exactly the returned expense, with every given field |
| CurrencyConversion.DefaultRateToUsd | FinanceApp.Web/Services/CurrencyConversionService.cs:39-61 | every fallback rate is positive; only the dollar's is 1 |
| CurrencyConversion.RateFor | FinanceApp.Web/Services/CurrencyConversionService.cs:22-24 | a currency without a configured rate gets its fallback; with positive configured rates the rate used is positive |
| CurrencyConversion.RoundCents | FinanceApp.Web/Services/CurrencyConversionService.cs:33 | a whole number of cents at most half a cent away, a half cent only away from zero |
| CurrencyConversion.RoundingIsUnique | FinanceApp.Web/Services/CurrencyConversionService.cs:33 | at most one value is the rounding of x |
| CurrencyConversion.CentsRoundToThemselves | FinanceApp.Web/Services/CurrencyConversionService.cs:33 | an amount in whole cents rounds to itself |
| CurrencyConversion.RoundingKeepsSign | FinanceApp.Web/Services/CurrencyConversionService.cs:33 | a non-negative value rounds to a non-negative one |
| CurrencyConversion.CurrencyConversionService.constructor | FinanceApp.Web/Services/CurrencyConversionService.cs:15-28 | every currency has a rate: the configured one, else the fallback |
| CurrencyConversion.CurrencyConversionService.ConvertToUsd | FinanceApp.Web/Services/CurrencyConversionService.cs:30-34 | 0 for an amount <= 0; otherwise amount × rate rounded to cents, halves away from zero; never negative for a non-negative rate |
| CurrencyConversion.UsdIsIdentity | FinanceApp.Web/Services/CurrencyConversionService.cs:20-43 | with the fallback dollar rate, a positive dollar amount in whole cents converts to itself |
| CurrencyConversion.DefaultConversionsAreNonNegative | FinanceApp.Web/Services/CurrencyConversionService.cs:30-61 | with the fallback rates no conversion is negative |

## Left out

Entities and the store:

- Entities are values, not objects. The model does not capture two references to one tracked object, or an entity mutated after it was staged. Nor does it capture two distinct objects with one key: `Persistence.TrackAdded` replaces the entry of an already tracked key, where EF Core throws `InvalidOperationException`; the services never add a key that is already tracked. The services always write back through `Update` or `SoftDelete`, so their observable effect is kept.
- One context per repository and per unit of work. A commit reads the clock once: every entry of one commit gets the same instant. The source reads `DateTimeOffset.UtcNow` once per entry.
- `Include` eager loading, deferred execution and query translation are not modelled. Queries are synchronous computations over the table. `async`/`await` is not modelled either.
- The `BaseEntity` key configuration (`ValueGeneratedOnAdd`), `HasMaxLength`, `HasColumnType("decimal(18,2)")`, `IsRequired` and the foreign-key `Restrict` delete rule are not modelled. A commit is refused only for a duplicate added key, or a missing updated or deleted key.
- BudgetServices.BudgetService: `FinanceDbContext` maps no budget table. It declares `DbSet`s only for `Expenses` and `Categories` (FinanceDbContext.cs:16-17), and `OnModelCreating` configures only `BaseEntity`, `Expense` and `Category` (FinanceDbContext.cs:38-93). So `Set<Budget>()` has no table behind it, and as written the first query or `AddAsync` of `BudgetService` fails at run time with EF Core's "type is not included in the model" error. The model assumes a budget table mapped like the other two, but without the soft-delete global filter, which only `Expense` and `Category` configure. The repository's explicit `!IsDeleted` test still applies to it. The contracts of `GetBudgetForMonth`, `SetBudget`, `UpdateExisting` and `AddNew` describe that assumed table.
- Concurrent requests and races between two `SetBudgetAsync` calls are not modelled. There is no database uniqueness constraint on a budget period.
- Null arguments and `ArgumentNullException` from the service constructors are left out: every reference in the model is non-null.
- Entities returned by a query are not tracked as Unchanged, and automatic change detection is not modelled: only entities staged through the repository are written.

Numbers, strings and identifiers:

- `decimal` is an exact rational. The 28-digit precision and overflow of `decimal`, and the `decimal(18,2)` column rounding, are not modelled.
- `DateTimeOffset` values are integer ticks, and time zones are not modelled.
- The source declares `Expense.UserId` as a `Guid` but the services pass a `string`. The model uses one user-id type, strings, with blankness as a predicate.
- `Guid.NewGuid()` becomes a caller-supplied key. Seeding takes `newIds`, with the k-th constructed category getting `newIds(k)`.
- Strings are sequences of characters. `StartsWith("#")` is an exact first-character test; the source's culture-sensitive comparison is not modelled. `string.IsNullOrWhiteSpace` uses the `char.IsWhiteSpace` set.
- Repositories.Repository.Ordered: a query without an ordering returns rows in table order, and rows with equal keys keep table order (a stable sort). The database promises neither, and each page is a separate query, so in the program a row may appear on two pages or on none; `Repositories.PagesCoverQuery` holds only for the one fixed order the model picks.
- BudgetServices.BudgetService.GetBudgetForMonth: the same table-order assumption decides which budget `FirstOrDefault` returns when one period holds two or more. The source's query has no ordering, and two budgets in one period can arise from the races noted above. The assumption also makes the updated budget stay first in its period (`BudgetServices.ReplaceInPeriod` and the last `ensures` of `BudgetServices.BudgetService.UpdateExisting`).
- Sequences.Page: requires `pageNumber >= 1` and `pageSize >= 1`, because LINQ's handling of a negative `Skip` or `Take` is not modelled. The 32-bit overflow of `(pageNumber - 1) * pageSize` is not modelled either.

Services and conversion:

- `CategoryService.UpdateCategoryAsync` mutates the tracked object in place, so a throw can happen after earlier edits have reached the object. The model returns the error and stages nothing. Nothing is committed in either case.
- `AssignDefaultCategoriesToUserAsync` does not validate its user id; the model does not either. With the empty id the user's categories are the templates themselves, so nothing is staged; a whitespace-only id gets copies owned by that id.
- `SetBudgetAsync` is modelled as `SetBudget` with its two branches as the helper methods `UpdateExisting` and `AddNew`.
- CurrencyConversion.CurrencyConversionService.constructor: values are read from a `map<string, real>`. Case-insensitive configuration keys and configuration values that fail to parse are not modelled.
- The fallback switch's `_ => 1m` arm cannot be reached, because every member has its own arm.

Outside the core:

- Controllers, views, migrations, identity, e-mail, the duplicate infrastructure `ExpenseService`, view models and DTOs are not part of this model.

## Notes

- The `Category` constructor stores any badge colour; only `UpdateBadgeColor` checks the `#` plus 7-character form. `Categories.BadgeColorExamples` shows the constructor storing "blue".
